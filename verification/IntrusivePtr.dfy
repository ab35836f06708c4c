// Smart pointers that count their uses in the object they point to.
module IntrusivePointers {

  class Counted {
    var c: nat
    var destroyed: bool

    constructor ()
      ensures c == 0 && !destroyed
    {
      c, destroyed := 0, false;
    }

    // intrusivePtrCounterIncrement
    method Increment()
      modifies this`c
      ensures c == old(c) + 1
    {
      c := c + 1;
    }

    // intrusivePtrCounterDecrement: the last use destroys the object.
    method Decrement()
      requires c > 0
      modifies this
      ensures c == old(c) - 1 && destroyed == (old(destroyed) || c == 0)
    {
      c := c - 1;
      if c == 0 {
        destroyed := true;
      }
    }
  }

  // How many of the handles point to an object.
  ghost function Uses(handles: set<IntrusivePtr>, o: Counted): nat
    reads handles`p
  {
    |set h | h in handles && h.p == o|
  }

  function One(b: bool): nat {
    if b then 1 else 0
  }

  // Taking one handle away.
  lemma UsesWithout(handles: set<IntrusivePtr>, h: IntrusivePtr, o: Counted)
    requires h in handles
    ensures Uses(handles, o) == Uses(handles - {h}, o) + One(h.p == o)
  {
    var a := set x | x in handles && x.p == o;
    var b := set x | x in handles - {h} && x.p == o;
    assert a == if h.p == o then b + {h} else b;
  }

  // Every object counts exactly the handles that point to it, and no handle points to a
  // destroyed object.
  ghost predicate Balanced(handles: set<IntrusivePtr>, objects: set<Counted>)
    reads handles`p, objects
  {
    && (forall h :: h in handles && h.p != null ==> h.p in objects)
    && (forall o :: o in objects ==> o.c == Uses(handles, o) && (o.destroyed ==> o.c == 0))
  }

  // A handle that is pointed to is counted, so the object is alive.
  lemma Alive(handles: set<IntrusivePtr>, objects: set<Counted>, h: IntrusivePtr)
    requires Balanced(handles, objects) && h in handles && h.p != null
    ensures h.p in objects && h.p.c > 0 && !h.p.destroyed
  {
    UsesWithout(handles, h, h.p);
  }

  class IntrusivePtr {
    var p: Counted?

    constructor ()
      ensures p == null
    {
      p := null;
    }

    constructor FromRaw(q: Counted?, ghost handles: set<IntrusivePtr>, ghost objects: set<Counted>)
      requires Balanced(handles, objects)
      requires q != null ==> q in objects && !q.destroyed
      modifies if q != null then {q} else {}
      ensures p == q && Balanced(handles + {this}, objects)
      ensures forall o :: o in objects ==> o.destroyed == old(o.destroyed)
    {
      p := q;
      new;
      if q != null {
        q.Increment();
      }
      forall o | o in objects
        ensures o.c == Uses(handles + {this}, o)
      {
        UsesWithout(handles + {this}, this, o);
        assert handles + {this} - {this} == handles;
      }
    }

    // The moved handle gives up its use.
    constructor Move(ptr: IntrusivePtr, ghost handles: set<IntrusivePtr>, ghost objects: set<Counted>)
      requires Balanced(handles, objects) && ptr in handles
      modifies ptr
      ensures p == old(ptr.p) && ptr.p == null && Balanced(handles + {this}, objects)
    {
      p := ptr.p;
      new;
      Separate(handles, ptr, objects);
      ghost var u := UsesOf(handles - {ptr}, objects);
      ptr.p := null;
      forall o | o in objects
        ensures o.c == Uses(handles + {this}, o)
      {
        UsesWithout(handles + {this}, this, o);
        UsesWithout(handles, ptr, o);
        assert handles + {this} - {this} == handles;
        assert u[o] == Uses(handles - {ptr}, o);
      }
    }

    // The destructor: the handle leaves the set, and an object it was the last use of is destroyed.
    method Destroy(ghost handles: set<IntrusivePtr>, ghost objects: set<Counted>)
      requires Balanced(handles, objects) && this in handles
      modifies if p != null then {p} else {}
      ensures Balanced(handles - {this}, objects)
      ensures forall o :: o in objects ==> (o.destroyed <==> old(o.destroyed) || LastUse(old(o.c), o.c))
    {
      Separate(handles, this, objects);
      if p != null {
        Alive(handles, objects, this);
        p.Decrement();
      }
    }

    method Swap(ptr: IntrusivePtr, ghost handles: set<IntrusivePtr>, ghost objects: set<Counted>)
      requires Balanced(handles, objects) && this in handles && ptr in handles
      modifies this, ptr
      ensures p == old(ptr.p) && ptr.p == old(p) && Balanced(handles, objects)
    {
      ghost var rest := handles - {this} - {ptr};
      forall o | o in objects
        ensures Uses(handles, o) == Uses(rest, o) + One(p == o) + if this == ptr then 0 else One(ptr.p == o)
      {
        SeparateTwo(handles, this, ptr, o);
      }
      ghost var u := UsesOf(rest, objects);
      var tmp := p;
      p := ptr.p;
      ptr.p := tmp;
      forall o | o in objects
        ensures o.c == Uses(handles, o)
      {
        SeparateTwo(handles, this, ptr, o);
        assert u[o] == Uses(rest, o);
      }
    }

    // Assignment by copy and swap; ptr may be this handle.
    method Assign(ptr: IntrusivePtr, ghost handles: set<IntrusivePtr>, ghost objects: set<Counted>)
      requires Balanced(handles, objects) && this in handles && ptr in handles
      modifies this, objects
      ensures p == old(ptr.p) && Balanced(handles, objects)
      ensures forall o :: o in objects ==> (o.destroyed <==> old(o.destroyed) || LastUse(old(o.c), o.c))
    {
      if ptr.p != null {
        Alive(handles, objects, ptr);
      }
      AssignRaw(ptr.p, handles, objects);
    }

    // Assignment and reset from a plain pointer to an object that is alive.
    method AssignRaw(q: Counted?, ghost handles: set<IntrusivePtr>, ghost objects: set<Counted>)
      requires Balanced(handles, objects) && this in handles
      requires q != null ==> q in objects && !q.destroyed
      modifies this, objects
      ensures p == q && Balanced(handles, objects)
      ensures forall o :: o in objects ==> (o.destroyed <==> old(o.destroyed) || LastUse(old(o.c), o.c))
    {
      var tmp := new IntrusivePtr.FromRaw(q, handles, objects);
      tmp.Exchange(this, handles, objects);
    }

    // swap of a temporary with a handle, and the end of the temporary.
    method Exchange(ptr: IntrusivePtr, ghost handles: set<IntrusivePtr>, ghost objects: set<Counted>)
      requires Balanced(handles + {this}, objects) && ptr in handles && this !in handles
      modifies this, ptr, objects
      ensures ptr.p == old(p) && Balanced(handles, objects)
      ensures forall o :: o in objects ==> (o.destroyed <==> old(o.destroyed) || LastUse(old(o.c), o.c))
      ensures forall o :: o in objects && o != old(ptr.p) ==> o.c == old(o.c)
    {
      Swap(ptr, handles + {this}, objects);
      assert handles + {this} - {this} == handles;
      Destroy(handles + {this}, objects);
    }

    method MoveAssign(ptr: IntrusivePtr, ghost handles: set<IntrusivePtr>, ghost objects: set<Counted>)
      requires Balanced(handles, objects) && this in handles && ptr in handles
      modifies this, ptr, objects
      ensures p == old(ptr.p) && (ptr != this ==> ptr.p == null) && Balanced(handles, objects)
      ensures forall o :: o in objects ==> (o.destroyed <==> old(o.destroyed) || LastUse(old(o.c), o.c))
    {
      var tmp := new IntrusivePtr.Move(ptr, handles, objects);
      tmp.Exchange(this, handles, objects);
    }

    method Reset(ghost handles: set<IntrusivePtr>, ghost objects: set<Counted>)
      requires Balanced(handles, objects) && this in handles
      modifies this, objects
      ensures p == null && Balanced(handles, objects)
      ensures forall o :: o in objects ==> (o.destroyed <==> old(o.destroyed) || LastUse(old(o.c), o.c))
    {
      AssignRaw(null, handles, objects);
    }
  }

  // The last handle left.
  predicate LastUse(before: nat, after: nat) {
    before > 0 && after == 0
  }

  ghost function UsesOf(handles: set<IntrusivePtr>, objects: set<Counted>): map<Counted, nat>
    reads handles`p
  {
    map o | o in objects :: Uses(handles, o)
  }

  lemma Separate(handles: set<IntrusivePtr>, h: IntrusivePtr, objects: set<Counted>)
    requires h in handles
    ensures forall o :: o in objects ==> Uses(handles, o) == Uses(handles - {h}, o) + One(h.p == o)
  {
    forall o | o in objects
      ensures Uses(handles, o) == Uses(handles - {h}, o) + One(h.p == o)
    {
      UsesWithout(handles, h, o);
    }
  }

  lemma SeparateTwo(handles: set<IntrusivePtr>, a: IntrusivePtr, b: IntrusivePtr, o: Counted)
    requires a in handles && b in handles
    ensures Uses(handles, o) == Uses(handles - {a} - {b}, o) + One(a.p == o) + if a == b then 0 else One(b.p == o)
  {
    UsesWithout(handles, a, o);
    if a == b {
      assert handles - {a} - {b} == handles - {a};
    } else {
      UsesWithout(handles - {a}, b, o);
    }
  }
}
