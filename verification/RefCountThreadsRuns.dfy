/** What every interleaving of the threads of RefCountThreads guarantees, and what the
    assignment of a pointer to itself needs. */
module RefCountThreadsRuns {
  import opened RefCountThreads

  /** Threads that own no slot yet, and no object. */
  ghost predicate Initial(s: State) {
    && (forall t :: t in s.owners ==> t.Thread? && s.owners[t] == Local(map[], [], []))
    && s.shared == {} && s.count == map[] && s.deleted == {} && s.zeros == multiset{} && s.doomed == map[] && !s.touchedDeleted
  }

  ghost predicate Run(s: State, actions: seq<Action>, s': State)
    decreases |actions|
  {
    if actions == [] then s' == s
    else Enabled(s, actions[0]) && Run(Apply(s, actions[0]), actions[1..], s')
  }

  lemma {:induction false} RunKeeps(s: State, actions: seq<Action>, s': State)
    requires Invariant(s) && Run(s, actions, s')
    ensures Invariant(s')
    decreases |actions|
  {
    if actions != [] {
      ApplyKeeps(s, actions[0]);
      RunKeeps(Apply(s, actions[0]), actions[1..], s');
    }
  }

  lemma InitialOk(s: State)
    requires Initial(s)
    ensures Invariant(s)
  {
    forall t ensures t in s.owners ==> LocalOk(s.owners[t]) {
      assert Balanced(map[], {}, []);
    }
  }

  /** In every state of every interleaving: counts are the references held, no deleted object
      was touched, zero was seen exactly once for every object whose count is zero and never
      for another, and every object somebody holds is alive. Slots inside objects count. */
  lemma {:induction false} EveryRunIsSafe(s: State, actions: seq<Action>, s': State)
    requires Initial(s) && Run(s, actions, s')
    ensures !s'.touchedDeleted
    ensures forall o :: o in s'.count ==> s'.count[o] == |Holders(s'.owners, o)|
    ensures forall o :: s'.zeros[o] == if o in s'.count && s'.count[o] == 0 then 1 else 0
    ensures forall o :: o in s'.deleted ==> Holders(s'.owners, o) == {} && s'.zeros[o] == 1
  {
    InitialOk(s);
    RunKeeps(s, actions, s');
    forall o | o in s'.deleted ensures Holders(s'.owners, o) == {} && s'.zeros[o] == 1 {
      assert Dead(s'.count, o);
    }
  }

  ghost predicate RefersTo(owners: map<Owner, Local>, t: Owner, x: Slot, o: Object) {
    t in owners && x in owners[t].slots && !owners[t].slots[x].Null? && owners[t].slots[x].target == o
  }

  /** Between operations an object is deleted exactly when no slot refers to it, neither of a
      thread nor of an object that is not deleted: none is freed early and none is leaked,
      whichever thread let go last. A deleted object has no slots. */
  lemma {:induction false} QuiescentMeansFreedIffUnheld(s: State, actions: seq<Action>, s': State, o: Object)
    requires Initial(s) && Run(s, actions, s') && o in s'.count
    requires forall t :: t in s'.owners ==> s'.owners[t].code == []
    ensures o in s'.deleted <==> forall t, x :: !RefersTo(s'.owners, t, x, o)
    ensures o in s'.deleted <==> Inside(o) !in s'.owners
  {
    InitialOk(s);
    RunKeeps(s, actions, s');
    var H := Holders(s'.owners, o);
    assert forall t :: t in s'.owners ==> !Deletes(s'.owners[t], o);
    assert o in s'.deleted <==> Dead(s'.count, o);
    assert Dead(s'.count, o) <==> H == {};
    forall t, x ensures RefersTo(s'.owners, t, x, o) ==> x in H {
      if RefersTo(s'.owners, t, x, o) {
        assert LocalOk(s'.owners[t]);
        assert s'.owners[t].slots[x] == Counted(o);
      }
    }
    if H != {} {
      var x :| x in H;
      var t :| t in s'.owners && x in s'.owners[t].slots && s'.owners[t].slots[x] == Counted(o);
      assert RefersTo(s'.owners, t, x, o);
    }
  }

  /** A thread with code left can take its next step; wrapping needs an object not yet made. */
  lemma NoThreadIsStuck(s: State, t: Owner)
    requires Invariant(s) && t.Thread? && t in s.owners && s.owners[t].code != []
    requires s.owners[t].code[0].Adopt? ==> s.owners[t].code[0].target !in s.count
    ensures Enabled(s, Step(t))
  {
    assert LocalOk(s.owners[t]);
    assert Known(s.count, s.owners[t].slots[s.owners[t].code[0].slot]);
  }

  // ---------------------------------------------------------------------------------------
  // The only reference
  // ---------------------------------------------------------------------------------------

  /** A holder that reads count 1 is the only holder. */
  lemma UniqueIsAlone(s: State, t: Owner, x: Slot)
    requires Invariant(s) && t in s.owners && x in s.owners[t].slots && s.owners[t].slots[x].Counted?
    ensures var o := s.owners[t].slots[x].target;
            o in s.count && (s.count[o] == 1 <==> Holders(s.owners, o) == {x})
  {
    var o := s.owners[t].slots[x].target;
    HolderKeepsAlive(s, t, x);
    var H := Holders(s.owners, o);
    assert x in H;
    Without(H, x);
    if |H| == 1 {
      assert H - {x} == {};
      assert H == {x};
    }
  }

  ghost predicate HeldOnceBy(s: State, t: Owner, x: Slot) {
    && t in s.owners && x in s.owners[t].slots && s.owners[t].slots[x].Counted?
    && s.owners[t].slots[x].target in s.count && s.count[s.owners[t].slots[x].target] == 1
  }

  lemma OnlyHere(s: State, t: Owner, x: Slot, u: Owner, y: Slot)
    requires Invariant(s) && HeldOnceBy(s, t, x) && u in s.owners && Has(s.owners[u].slots, y, s.owners[t].slots[x].target)
    ensures u == t && y == x
  {
    var o := s.owners[t].slots[x].target;
    UniqueIsAlone(s, t, x);
    assert y in Holders(s.owners, o);
    assert NowhereElse(s.owners, t, x);
  }

  /** A step of a thread that neither holds nor borrows an object leaves its count alone. */
  lemma StepLeavesCount(s: State, u: Owner, o: Object)
    requires Enabled(s, Step(u)) && LocalOk(s.owners[u]) && o in s.count
    requires !Holds(s.owners[u].slots, o) && o !in Kept(s.owners[u])
    ensures o in Execute(s, u).count && Execute(s, u).count[o] == s.count[o]
  {
  }

  /** No other thread can add to the count of an object whose only holder is not shared. */
  lemma UniqueStep(s: State, t: Owner, x: Slot, a: Action)
    requires Invariant(s) && Enabled(s, a) && a.thread != t && t.Thread?
    requires HeldOnceBy(s, t, x) && (t, x) !in s.shared
    ensures var s' := Apply(s, a);
            && HeldOnceBy(s', t, x) && (t, x) !in s'.shared
            && s'.owners[t].slots[x] == s.owners[t].slots[x]
  {
    if a.Step? {
      UniqueAfterStep(s, t, x, a.thread);
    } else {
      assert NowhereElse(s.owners, t, x);
      UniqueAfterOther(s, t, x, a);
    }
  }

  lemma UniqueAfterOther(s: State, t: Owner, x: Slot, a: Action)
    requires NowhereElse(s.owners, t, x) && Enabled(s, a) && a.thread != t && t.Thread? && !a.Step?
    requires HeldOnceBy(s, t, x) && (t, x) !in s.shared
    ensures var s' := Apply(s, a);
            && HeldOnceBy(s', t, x) && (t, x) !in s'.shared
            && s'.owners[t].slots[x] == s.owners[t].slots[x]
  {
  }

  lemma UniqueAfterStep(s: State, t: Owner, x: Slot, u: Owner)
    requires Invariant(s) && Enabled(s, Step(u)) && u != t && t.Thread?
    requires HeldOnceBy(s, t, x) && (t, x) !in s.shared
    ensures HeldOnceBy(Execute(s, u), t, x) && Execute(s, u).shared <= s.shared
    ensures Execute(s, u).owners[t] == s.owners[t]
  {
    var o := s.owners[t].slots[x].target;
    NotHeld(s, t, x, u);
    StepLeavesCount(s, u, o);
    StepLeavesOthers(s, u, t);
  }

  lemma StepLeavesOthers(s: State, u: Owner, t: Owner)
    requires Enabled(s, Step(u)) && u != t && t.Thread? && t in s.owners
    ensures t in Execute(s, u).owners && Execute(s, u).owners[t] == s.owners[t]
    ensures Execute(s, u).shared <= s.shared
  {
  }

  lemma NotHeld(s: State, t: Owner, x: Slot, u: Owner)
    requires Invariant(s) && u in s.owners && s.owners[u].code != [] && u != t
    requires HeldOnceBy(s, t, x) && (t, x) !in s.shared
    ensures var o := s.owners[t].slots[x].target;
            !Holds(s.owners[u].slots, o) && o !in Kept(s.owners[u]) && LocalOk(s.owners[u])
  {
    var o := s.owners[t].slots[x].target;
    forall y | y in s.owners[u].slots ensures s.owners[u].slots[y] != Counted(o) {
      if Has(s.owners[u].slots, y, o) {
        OnlyHere(s, t, x, u, y);
      }
    }
    assert LentOk(s.owners, s.shared, s.owners[u]);
    forall e | e in s.owners[u].lent ensures e.target != o {
      assert Lends(s.owners, s.shared, e);
      if e.target == o {
        OnlyHere(s, t, x, e.owner, e.slot);
      }
    }
  }

  /** As long as its slot is not shared it stays the only holder, and the count stays 1,
      whatever the other threads do meanwhile. */
  lemma {:induction false} UniqueIsStable(s: State, t: Owner, x: Slot, actions: seq<Action>, s': State)
    requires Invariant(s) && HeldOnceBy(s, t, x) && (t, x) !in s.shared && t.Thread?
    requires Run(s, actions, s') && forall k :: 0 <= k < |actions| ==> actions[k].thread != t
    ensures HeldOnceBy(s', t, x) && s'.owners[t].slots[x] == s.owners[t].slots[x]
    ensures Holders(s'.owners, s.owners[t].slots[x].target) == {x}
    decreases |actions|
  {
    if actions == [] {
      UniqueIsAlone(s, t, x);
    } else {
      ApplyKeeps(s, actions[0]);
      UniqueStep(s, t, x, actions[0]);
      UniqueIsStable(Apply(s, actions[0]), t, x, actions[1..], s');
    }
  }
}
