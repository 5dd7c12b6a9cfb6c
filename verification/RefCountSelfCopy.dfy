/** Assigning a pointer from itself (default/quiche_platform_impl/quiche_reference_counted_impl.h,
    lines 84-89): `operator=(const QuicheReferenceCountedPointerImpl<U>&)` has no test for
    `this == &other`, and the reference it gives up may be the last. */
module RefCountSelfCopy {
  import opened RefCountThreads
  import opened RefCountThreadsRuns

  // ---------------------------------------------------------------------------------------
  // Steps that another operation would make as well
  // ---------------------------------------------------------------------------------------

  /** The state in which thread `t` has more code to execute. */
  ghost function Extended(s: State, t: Owner, tail: seq<Instruction>): State
    requires t in s.owners
  {
    s.(owners := s.owners[t := s.owners[t].(code := s.owners[t].code + tail)])
  }

  /** Steps that release, of which thread `t` alone deletes, and what idle threads do to let go
      of an object. */
  predicate Helps(s: State, t: Owner, a: Action) {
    if a.Step? then
      && a.thread in s.owners && IsRelease(s.owners[a.thread].code)
      && (a.thread != t ==> !s.owners[a.thread].code[0].Delete?)
    else a.thread != t && (a.Unshare? || a.TakeOut? || a.Begin?)
  }

  predicate IsRelease(code: seq<Instruction>) {
    code != [] && (code[0].FetchSub? || code[0].Delete? || code[0].Clear?)
  }

  lemma UnshareOfOthers(s: State, t: Owner, tail: seq<Instruction>, a: Action)
    requires t.Thread? && t in s.owners && s.owners[t].code != [] && Enabled(s, a) && a.thread != t && a.Unshare?
    ensures t in Apply(s, a).owners
    ensures Enabled(Extended(s, t, tail), a) && Apply(Extended(s, t, tail), a) == Extended(Apply(s, a), t, tail)
  {
    var s' := Extended(s, t, tail);
    assert IsLent(s', a.owner, a.slot) ==> IsLent(s, a.owner, a.slot);
  }

  lemma TakeOutOfOthers(s: State, t: Owner, tail: seq<Instruction>, a: Action)
    requires t.Thread? && t in s.owners && s.owners[t].code != [] && Enabled(s, a) && a.thread != t && a.TakeOut?
    ensures t in Apply(s, a).owners
    ensures Enabled(Extended(s, t, tail), a) && Apply(Extended(s, t, tail), a) == Extended(Apply(s, a), t, tail)
  {
    var s' := Extended(s, t, tail);
    assert Apply(s', a).owners == Extended(Apply(s, a), t, tail).owners;
  }

  lemma BeginOfOthers(s: State, t: Owner, tail: seq<Instruction>, a: Action)
    requires t.Thread? && t in s.owners && s.owners[t].code != [] && Enabled(s, a) && a.thread != t && a.Begin?
    ensures t in Apply(s, a).owners
    ensures Enabled(Extended(s, t, tail), a) && Apply(Extended(s, t, tail), a) == Extended(Apply(s, a), t, tail)
  {
    var s' := Extended(s, t, tail);
    assert Apply(s', a).owners == Extended(Apply(s, a), t, tail).owners;
  }

  lemma SubOfOthers(s: State, t: Owner, tail: seq<Instruction>, u: Owner)
    requires t.Thread? && t in s.owners && Enabled(s, Step(u)) && u != t && s.owners[u].code[0].FetchSub?
    ensures t in Execute(s, u).owners && Execute(Extended(s, t, tail), u) == Extended(Execute(s, u), t, tail)
  {
    var l := Execute(s, u).owners[u];
    assert Execute(s, u).owners == s.owners[u := l];
    var k := s.owners[t].(code := s.owners[t].code + tail);
    assert s.owners[t := k][u := l] == s.owners[u := l][t := k];
  }

  lemma ClearOfOthers(s: State, t: Owner, tail: seq<Instruction>, u: Owner)
    requires t.Thread? && t in s.owners && Enabled(s, Step(u)) && u != t && s.owners[u].code[0].Clear?
    ensures t in Execute(s, u).owners && Execute(Extended(s, t, tail), u) == Extended(Execute(s, u), t, tail)
  {
    var s' := Extended(s, t, tail);
    assert Execute(s', u).owners == Extended(Execute(s, u), t, tail).owners;
  }

  lemma StepOfOthers(s: State, t: Owner, tail: seq<Instruction>, u: Owner)
    requires t.Thread? && t in s.owners && Enabled(s, Step(u)) && u != t
    requires IsRelease(s.owners[u].code) && !s.owners[u].code[0].Delete?
    ensures t in Execute(s, u).owners
    ensures Enabled(Extended(s, t, tail), Step(u))
    ensures Execute(Extended(s, t, tail), u) == Extended(Execute(s, u), t, tail)
  {
    var i := s.owners[u].code[0];
    if i.FetchSub? {
      SubOfOthers(s, t, tail, u);
    } else {
      ClearOfOthers(s, t, tail, u);
    }
  }

  lemma SubOfItself(s: State, t: Owner, tail: seq<Instruction>)
    requires t.Thread? && t in s.owners && Enabled(s, Step(t)) && s.owners[t].code[0].FetchSub?
    ensures Execute(Extended(s, t, tail), t) == Extended(Execute(s, t), t, tail)
  {
    var s' := Extended(s, t, tail);
    var i, code := s.owners[t].code[0], s.owners[t].code;
    assert (code + tail)[1..] == code[1..] + tail;
    assert [Clear(i.slot)] + (code[1..] + tail) == [Clear(i.slot)] + code[1..] + tail;
    assert [Delete(i.slot), Clear(i.slot)] + (code[1..] + tail) == [Delete(i.slot), Clear(i.slot)] + code[1..] + tail;
    assert Execute(s', t).owners == Extended(Execute(s, t), t, tail).owners;
  }

  lemma DeleteOfItself(s: State, t: Owner, tail: seq<Instruction>)
    requires t.Thread? && t in s.owners && Enabled(s, Step(t)) && s.owners[t].code[0].Delete?
    ensures Execute(Extended(s, t, tail), t) == Extended(Execute(s, t), t, tail)
  {
    var s' := Extended(s, t, tail);
    var i, code := s.owners[t].code[0], s.owners[t].code;
    assert (code + tail)[1..] == code[1..] + tail;
    if !s.owners[t].slots[i.slot].Null? {
      var o := s.owners[t].slots[i.slot].target;
      var releases := ReleaseCode(Downward(Members(s, o).Keys));
      assert Members(s', o) == Members(s, o);
      assert releases + (code[1..] + tail) == releases + code[1..] + tail;
    }
    assert Execute(s', t).owners == Extended(Execute(s, t), t, tail).owners;
  }

  lemma ClearOfItself(s: State, t: Owner, tail: seq<Instruction>)
    requires t.Thread? && t in s.owners && Enabled(s, Step(t)) && s.owners[t].code[0].Clear?
    ensures Execute(Extended(s, t, tail), t) == Extended(Execute(s, t), t, tail)
  {
    var s' := Extended(s, t, tail);
    var code := s.owners[t].code;
    assert (code + tail)[1..] == code[1..] + tail;
    assert Execute(s', t).owners == Extended(Execute(s, t), t, tail).owners;
  }

  lemma StepOfItself(s: State, t: Owner, tail: seq<Instruction>)
    requires t.Thread? && t in s.owners && Enabled(s, Step(t)) && IsRelease(s.owners[t].code)
    ensures t in Execute(s, t).owners
    ensures Enabled(Extended(s, t, tail), Step(t))
    ensures Execute(Extended(s, t, tail), t) == Extended(Execute(s, t), t, tail)
  {
    var i := s.owners[t].code[0];
    assert (s.owners[t].code + tail)[0] == i;
    if i.FetchSub? {
      SubOfItself(s, t, tail);
    } else if i.Delete? {
      DeleteOfItself(s, t, tail);
    } else {
      ClearOfItself(s, t, tail);
    }
  }

  /** A run that thread `t` does not begin without code, and that only helps. */
  ghost predicate HelpingRun(s: State, t: Owner, actions: seq<Action>, s': State)
    decreases |actions|
  {
    if actions == [] then s' == s
    else
      && t in s.owners && s.owners[t].code != [] && Helps(s, t, actions[0]) && Enabled(s, actions[0])
      && HelpingRun(Apply(s, actions[0]), t, actions[1..], s')
  }

  lemma {:induction false} ExtendedRun(s: State, t: Owner, tail: seq<Instruction>, actions: seq<Action>, s': State)
    requires t.Thread? && t in s.owners && HelpingRun(s, t, actions, s')
    ensures t in s'.owners && Run(Extended(s, t, tail), actions, Extended(s', t, tail))
    decreases |actions|
  {
    if actions != [] {
      var a := actions[0];
      if a.thread == t {
        StepOfItself(s, t, tail);
      } else if a.Step? {
        StepOfOthers(s, t, tail, a.thread);
      } else if a.Unshare? {
        UnshareOfOthers(s, t, tail, a);
      } else if a.TakeOut? {
        TakeOutOfOthers(s, t, tail, a);
      } else {
        BeginOfOthers(s, t, tail, a);
      }
      ExtendedRun(Apply(s, a), t, tail, actions[1..], s');
    }
  }

  lemma FirstApart<T>(xs: seq<T>, ys: seq<T>)
    requires xs != []
    ensures xs + ys == [xs[0]] + (xs[1..] + ys)
  {
  }

  lemma HelpingFirst(s: State, t: Owner, a: Action, actions: seq<Action>, s': State)
    requires t in s.owners && s.owners[t].code != [] && Helps(s, t, a) && Enabled(s, a)
    requires HelpingRun(Apply(s, a), t, actions, s')
    ensures HelpingRun(s, t, [a] + actions, s')
  {
    assert ([a] + actions)[1..] == actions;
  }

  lemma {:induction false} HelpingConcat(s: State, t: Owner, xs: seq<Action>, s1: State, ys: seq<Action>, s': State)
    requires HelpingRun(s, t, xs, s1) && HelpingRun(s1, t, ys, s')
    ensures HelpingRun(s, t, xs + ys, s')
    decreases |xs|
  {
    if xs == [] {
      assert xs + ys == ys;
    } else {
      FirstApart(xs, ys);
      HelpingConcat(Apply(s, xs[0]), t, xs[1..], s1, ys, s');
      HelpingFirst(s, t, xs[0], xs[1..] + ys, s');
    }
  }

  lemma {:induction false} HelpingKeeps(s: State, t: Owner, actions: seq<Action>, s': State)
    requires Invariant(s) && HelpingRun(s, t, actions, s')
    ensures Invariant(s')
    decreases |actions|
  {
    if actions != [] {
      ApplyKeeps(s, actions[0]);
      HelpingKeeps(Apply(s, actions[0]), t, actions[1..], s');
    }
  }

  lemma RunFirst(s: State, a: Action, actions: seq<Action>, s': State)
    requires Enabled(s, a) && Run(Apply(s, a), actions, s')
    ensures Run(s, [a] + actions, s')
  {
    assert ([a] + actions)[1..] == actions;
  }

  lemma {:induction false} RunConcat(s: State, xs: seq<Action>, s1: State, ys: seq<Action>, s': State)
    requires Run(s, xs, s1) && Run(s1, ys, s')
    ensures Run(s, xs + ys, s')
    decreases |xs|
  {
    if xs == [] {
      assert xs + ys == ys;
    } else {
      FirstApart(xs, ys);
      RunConcat(Apply(s, xs[0]), xs[1..], s1, ys, s');
      RunFirst(s, xs[0], xs[1..] + ys, s');
    }
  }

  // ---------------------------------------------------------------------------------------
  // The other threads let go
  // ---------------------------------------------------------------------------------------

  ghost predicate OthersIdle(s: State, t: Owner) {
    && t.Thread? && t in s.owners && s.owners[t].code != [] && s.owners[t].lent == []
    && forall u :: u in s.owners && u != t ==> s.owners[u].code == []
  }

  lemma NothingIsLent(s: State, t: Owner, u: Owner, y: Slot)
    requires OthersIdle(s, t)
    ensures !IsLent(s, u, y)
  {
  }

  /** An idle thread destroys one of its pointers, which is not the last. */
  lemma Destroys(s: State, t: Owner, u: Owner, y: Slot, o: Object) returns (actions: seq<Action>, s': State)
    requires OthersIdle(s, t) && u.Thread? && u in s.owners && u != t
    requires y in s.owners[u].slots && s.owners[u].slots[y] == Counted(o) && o in s.count && s.count[o] > 1
    ensures HelpingRun(s, t, actions, s') && OthersIdle(s', t) && s'.owners[t] == s.owners[t]
    ensures s'.owners.Keys == s.owners.Keys && o in s'.count && s'.count[o] == s.count[o] - 1
  {
    NothingIsLent(s, t, u, y);
    var s1 := Apply(s, Unshare(u, u, y));
    var s2 := Apply(s1, Begin(u, Destroy(y)));
    assert s2.owners[u] == Local(s.owners[u].slots, [FetchSub(y)], []);
    actions, s' := DestroyRuns(s2, t, u, y, o);
    HelpingFirst(s1, t, Begin(u, Destroy(y)), actions, s');
    actions := [Begin(u, Destroy(y))] + actions;
    HelpingFirst(s, t, Unshare(u, u, y), actions, s');
    actions := [Unshare(u, u, y)] + actions;
  }

  lemma DestroyRuns(s: State, t: Owner, u: Owner, y: Slot, o: Object) returns (actions: seq<Action>, s': State)
    requires t in s.owners && s.owners[t].code != []
    requires u.Thread? && u in s.owners && u != t && s.owners[u].code == [FetchSub(y)]
    requires y in s.owners[u].slots && s.owners[u].slots[y] == Counted(o) && o in s.count && s.count[o] > 1
    ensures HelpingRun(s, t, actions, s')
    ensures s'.owners == s.owners[u := Local(s.owners[u].slots[y := Null], [], s.owners[u].lent)]
    ensures s'.count == s.count[o := s.count[o] - 1]
  {
    var s1 := Apply(s, Step(u));
    assert s1.owners[u] == Local(s.owners[u].slots[y := Uncounted(o)], [Clear(y)], s.owners[u].lent);
    s' := Apply(s1, Step(u));
    assert s.owners[u].slots[y := Uncounted(o)][y := Null] == s.owners[u].slots[y := Null];
    HelpingFirst(s1, t, Step(u), [], s');
    HelpingFirst(s, t, Step(u), [Step(u)] + [], s');
    actions := [Step(u)] + ([Step(u)] + []);
  }

  /** An idle thread takes a member out of an object. */
  lemma TakesOut(s: State, t: Owner, w: Owner, q: Object, y: Slot) returns (actions: seq<Action>, s': State)
    requires Invariant(s) && OthersIdle(s, t) && w.Thread? && w in s.owners && w != t
    requires Inside(q) in s.owners && y in s.owners[Inside(q)].slots && q in s.count && s.count[q] >= 1
    ensures HelpingRun(s, t, actions, s') && OthersIdle(s', t) && s'.owners[t] == s.owners[t]
    ensures s'.owners.Keys == s.owners.Keys && s'.count == s.count
    ensures y in s'.owners[w].slots && s'.owners[w].slots[y] == s.owners[Inside(q)].slots[y]
  {
    NothingIsLent(s, t, Inside(q), y);
    var s1 := Apply(s, Unshare(w, Inside(q), y));
    assert s1.owners == s.owners && s1.count == s.count && (Inside(q), y) !in s1.shared;
    s' := TakenOut(s1, t, w, q, y);
    HelpingFirst(s1, t, TakeOut(w, q, y), [], s');
    HelpingFirst(s, t, Unshare(w, Inside(q), y), [TakeOut(w, q, y)] + [], s');
    actions := [Unshare(w, Inside(q), y)] + ([TakeOut(w, q, y)] + []);
  }

  lemma TakenOut(s: State, t: Owner, w: Owner, q: Object, y: Slot) returns (s': State)
    requires OthersIdle(s, t) && w.Thread? && w in s.owners && w != t && (Inside(q), y) !in s.shared
    requires Inside(q) in s.owners && y in s.owners[Inside(q)].slots && q in s.count && s.count[q] >= 1
    ensures Enabled(s, TakeOut(w, q, y)) && s' == Apply(s, TakeOut(w, q, y))
    ensures OthersIdle(s', t) && s'.owners[t] == s.owners[t] && s'.owners.Keys == s.owners.Keys && s'.count == s.count
    ensures y in s'.owners[w].slots && s'.owners[w].slots[y] == s.owners[Inside(q)].slots[y]
  {
    s' := Apply(s, TakeOut(w, q, y));
  }

  /** One reference less, wherever it is but with thread `t`. */
  lemma LetsGo(s: State, t: Owner, w: Owner, u: Owner, y: Slot, o: Object) returns (actions: seq<Action>, s': State)
    requires Invariant(s) && OthersIdle(s, t) && w.Thread? && w in s.owners && w != t && u in s.owners && u != t
    requires y in s.owners[u].slots && s.owners[u].slots[y] == Counted(o) && o in s.count && s.count[o] > 1
    requires u.Inside? ==> u.host in s.count && s.count[u.host] >= 1
    ensures HelpingRun(s, t, actions, s') && OthersIdle(s', t) && s'.owners[t] == s.owners[t]
    ensures s'.owners.Keys == s.owners.Keys && o in s'.count && s'.count[o] == s.count[o] - 1
  {
    if u.Thread? {
      actions, s' := Destroys(s, t, u, y, o);
    } else {
      var first, s1 := TakesOut(s, t, w, u.host, y);
      var rest;
      rest, s' := Destroys(s1, t, w, y, o);
      HelpingConcat(s, t, first, s1, rest, s');
      actions := first + rest;
    }
  }

  /** Between operations of the others, an object that has members has references. */
  lemma HomesAreHeld(s: State, t: Owner, q: Object)
    requires Invariant(s) && OthersIdle(s, t) && Inside(q) in s.owners && !Deleting(s.owners[t])
    ensures q in s.count && s.count[q] >= 1
  {
    assert forall u :: u in s.owners ==> !Deletes(s.owners[u], q);
    assert q !in s.doomed;
    assert !Dead(s.count, q);
    assert s.count[q] == |Holders(s.owners, q)|;
  }

  lemma AnotherHolder(s: State, t: Owner, a: Slot, o: Object) returns (u: Owner, y: Slot)
    requires Invariant(s) && t in s.owners && o in s.count && s.count[o] > 1
    requires forall b :: b in s.owners[t].slots && b != a ==> s.owners[t].slots[b] != Counted(o)
    ensures u in s.owners && u != t && y in s.owners[u].slots && s.owners[u].slots[y] == Counted(o)
  {
    var H := Holders(s.owners, o);
    Without(H, a);
    assert H - {a} != {};
    y :| y in H - {a};
    u :| u in s.owners && y in s.owners[u].slots && s.owners[u].slots[y] == Counted(o);
  }

  /** All let go of an object but thread `t`, one reference after another. */
  lemma {:induction false} OthersLetGo(s: State, t: Owner, w: Owner, a: Slot, o: Object)
    returns (actions: seq<Action>, s': State)
    requires Invariant(s) && OthersIdle(s, t) && !Deleting(s.owners[t]) && w.Thread? && w in s.owners && w != t
    requires a in s.owners[t].slots && s.owners[t].slots[a] == Counted(o) && o in s.count
    requires forall b :: b in s.owners[t].slots && b != a ==> s.owners[t].slots[b] != Counted(o)
    ensures HelpingRun(s, t, actions, s') && OthersIdle(s', t) && s'.owners[t] == s.owners[t]
    ensures o in s'.count && s'.count[o] == 1
    decreases s.count[o]
  {
    HolderKeepsAlive(s, t, a);
    if s.count[o] == 1 {
      actions, s' := [], s;
    } else {
      var u, y := AnotherHolder(s, t, a, o);
      if u.Inside? {
        HomesAreHeld(s, t, u.host);
      }
      var first, s1 := LetsGo(s, t, w, u, y, o);
      HelpingKeeps(s, t, first, s1);
      var rest;
      rest, s' := OthersLetGo(s1, t, w, a, o);
      HelpingConcat(s, t, first, s1, rest, s');
      actions := first + rest;
    }
  }

  // ---------------------------------------------------------------------------------------
  // The last reference goes, and with it the object and its members
  // ---------------------------------------------------------------------------------------

  predicate Releasing(code: seq<Instruction>) {
    forall k :: 0 <= k < |code| ==> code[k].FetchSub? || code[k].Delete? || code[k].Clear?
  }

  function Weight(code: seq<Instruction>): nat {
    if code == [] then 0 else (if code[0].FetchSub? then 3 else 1) + Weight(code[1..])
  }

  ghost function Alive(s: State): set<Object> {
    s.count.Keys - s.deleted
  }

  lemma {:induction false} ReleasesRelease(order: seq<Slot>)
    ensures Releasing(ReleaseCode(order))
  {
    if order != [] {
      ReleasesRelease(order[1..]);
    }
  }

  lemma WeightOfTwo(i: Instruction, j: Instruction, rest: seq<Instruction>)
    ensures Weight([i] + rest) == (if i.FetchSub? then 3 else 1) + Weight(rest)
    ensures Weight([i, j] + rest) == (if i.FetchSub? then 3 else 1) + (if j.FetchSub? then 3 else 1) + Weight(rest)
  {
    assert ([i] + rest)[1..] == rest;
    assert ([i, j] + rest)[1..] == [j] + rest;
    assert ([j] + rest)[1..] == rest;
  }

  /** What a releasing step of thread `t` leaves to be done. */
  ghost predicate Nearer(s: State, s': State, t: Owner) {
    && t in s.owners && t in s'.owners && Releasing(s'.owners[t].code)
    && s.owners[t].slots.Keys <= s'.owners[t].slots.Keys && s.deleted <= s'.deleted && s.count.Keys <= s'.count.Keys
    && (Alive(s') < Alive(s) || (Alive(s') == Alive(s) && Weight(s'.owners[t].code) < Weight(s.owners[t].code)))
  }

  lemma StepReleases(s: State, t: Owner)
    requires Invariant(s) && Enabled(s, Step(t)) && Releasing(s.owners[t].code)
    ensures Nearer(s, Execute(s, t), t)
  {
    var i := s.owners[t].code[0];
    if i.Delete? {
      DeleteReleases(s, t);
    } else if i.FetchSub? {
      SubReleases(s, t);
    }
  }

  lemma FirstIsReplaced(code: seq<Instruction>, code': seq<Instruction>, slot: Slot)
    requires code != [] && code[0].FetchSub? && Releasing(code)
    requires code' == code[1..] || code' == [Clear(slot)] + code[1..] || code' == [Delete(slot), Clear(slot)] + code[1..]
    ensures Releasing(code') && Weight(code') < Weight(code)
  {
    WeightOfTwo(Clear(slot), Clear(slot), code[1..]);
    WeightOfTwo(Delete(slot), Clear(slot), code[1..]);
  }

  lemma SubReleases(s: State, t: Owner)
    requires Enabled(s, Step(t)) && Releasing(s.owners[t].code) && s.owners[t].code[0].FetchSub?
    ensures Nearer(s, Execute(s, t), t)
  {
    FirstIsReplaced(s.owners[t].code, Execute(s, t).owners[t].code, s.owners[t].code[0].slot);
    assert Execute(s, t).count.Keys == s.count.Keys;
  }

  lemma DeleterReleases(s: State, t: Owner, o: Object)
    requires t in s.owners && s.owners[t].code != [] && Releasing(s.owners[t].code)
    ensures Releasing(Deleter(s, t, o).code) && s.owners[t].slots.Keys <= Deleter(s, t, o).slots.Keys
  {
    ReleasesRelease(Downward(Members(s, o).Keys));
  }

  lemma DeleteReleases(s: State, t: Owner)
    requires Invariant(s) && Enabled(s, Step(t)) && Releasing(s.owners[t].code) && s.owners[t].code[0].Delete?
    ensures Nearer(s, Execute(s, t), t)
  {
    var o := DoomedHome(s, t);
    DeleterReleases(s, t, o);
    DeletedIsNearer(s, t, o, Deleter(s, t, o));
    DeleteState(s, t, o);
  }

  lemma DeletedIsNearer(s: State, t: Owner, o: Object, l: Local)
    requires t in s.owners && o in s.count && o !in s.deleted
    requires Releasing(l.code) && s.owners[t].slots.Keys <= l.slots.Keys
    ensures forall s': State :: t in s'.owners && s'.owners[t] == l && s'.deleted == s.deleted + {o} && s'.count == s.count ==>
              Nearer(s, s', t)
  {
    forall s': State | s'.deleted == s.deleted + {o} && s'.count == s.count ensures Alive(s') < Alive(s) {
      assert o in Alive(s) && Alive(s') == Alive(s) - {o};
    }
  }

  /** A thread that only releases comes to the end of it, whatever the objects hold that it
      deletes on the way. */
  lemma {:induction false} ReleaseEnds(s: State, t: Owner) returns (actions: seq<Action>, s': State)
    requires Invariant(s) && t.Thread? && t in s.owners && Releasing(s.owners[t].code)
    ensures HelpingRun(s, t, actions, s')
    ensures t in s'.owners && s'.owners[t].code == []
    ensures s.owners[t].slots.Keys <= s'.owners[t].slots.Keys && s.deleted <= s'.deleted && s.count.Keys <= s'.count.Keys
    decreases Alive(s), if t in s.owners then Weight(s.owners[t].code) else 0
  {
    if s.owners[t].code == [] {
      actions, s' := [], s;
    } else {
      NoThreadIsStuck(s, t);
      ApplyKeeps(s, Step(t));
      StepReleases(s, t);
      actions, s' := ReleaseEnds(Execute(s, t), t);
      HelpingFirst(s, t, Step(t), actions, s');
      actions := [Step(t)] + actions;
    }
  }

  /** fetch_sub sees zero. */
  lemma LastSub(s: State, t: Owner, a: Slot, o: Object)
    requires Invariant(s) && t.Thread? && t in s.owners && s.owners[t].code == [FetchSub(a)]
    requires a in s.owners[t].slots && s.owners[t].slots[a] == Counted(o) && o in s.count && s.count[o] == 1
    ensures Enabled(s, Step(t)) && Invariant(Execute(s, t))
    ensures var s1 := Execute(s, t);
            && t in s1.owners && s1.owners[t].code == [Delete(a), Clear(a)]
            && a in s1.owners[t].slots && s1.owners[t].slots[a] == Uncounted(o) && o in s1.count
  {
    ApplyKeeps(s, Step(t));
    assert [Delete(a), Clear(a)] + [FetchSub(a)][1..] == [Delete(a), Clear(a)];
  }

  /** The object is deleted. */
  lemma LastIsGone(s: State, t: Owner, a: Slot, o: Object)
    requires t.Thread? && t in s.owners && s.owners[t].code != [] && s.owners[t].code[0] == Delete(a)
    requires a in s.owners[t].slots && s.owners[t].slots[a] == Uncounted(o) && o in s.count
    ensures Enabled(s, Step(t)) && o in Execute(s, t).deleted
  {
  }

  lemma LastEnds(s: State, t: Owner, a: Slot, o: Object) returns (actions: seq<Action>, s': State)
    requires Invariant(s) && t.Thread? && t in s.owners && s.owners[t].code != [] && s.owners[t].code[0] == Delete(a)
    requires a in s.owners[t].slots && s.owners[t].slots[a] == Uncounted(o) && o in s.count
    requires Releasing(s.owners[t].code)
    ensures HelpingRun(s, t, actions, s')
    ensures t in s'.owners && s'.owners[t].code == [] && a in s'.owners[t].slots && o in s'.deleted && o in s'.count
  {
    LastIsGone(s, t, a, o);
    ApplyKeeps(s, Step(t));
    StepReleases(s, t);
    actions, s' := ReleaseEnds(Execute(s, t), t);
    HelpingFirst(s, t, Step(t), actions, s');
    actions := [Step(t)] + actions;
  }

  /** A thread that destroys the last pointer deletes the object. */
  lemma LastIsDeleted(s: State, t: Owner, a: Slot, o: Object) returns (actions: seq<Action>, s': State)
    requires Invariant(s) && t.Thread? && t in s.owners && s.owners[t].code == [FetchSub(a)]
    requires a in s.owners[t].slots && s.owners[t].slots[a] == Counted(o) && o in s.count && s.count[o] == 1
    ensures HelpingRun(s, t, actions, s')
    ensures t in s'.owners && s'.owners[t].code == [] && a in s'.owners[t].slots && o in s'.deleted && o in s'.count
  {
    LastSub(s, t, a, o);
    actions, s' := LastEnds(Execute(s, t), t, a, o);
    HelpingFirst(s, t, Step(t), actions, s');
    actions := [Step(t)] + actions;
  }

  // ---------------------------------------------------------------------------------------
  // When self-assignment is safe
  // ---------------------------------------------------------------------------------------

  /** The state once a thread has begun to assign a slot to itself. */
  function SelfCopyBegun(s: State, t: Owner, a: Slot): State
    requires t in s.owners && a in s.owners[t].slots
  {
    s.(owners := s.owners[t := Local(s.owners[t].slots, CopyCode(a, s.owners[t].slots[a]), [])])
  }

  /** No run from the state reaches a deleted object. */
  ghost predicate NeverTouches(s: State) {
    forall actions, s' :: Run(s, actions, s') ==> !s'.touchedDeleted
  }

  ghost predicate OnlyThread(s: State, t: Owner) {
    forall u :: u in s.owners && u.Thread? ==> u == t
  }

  lemma InvariantNeverTouches(s: State)
    requires Invariant(s)
    ensures NeverTouches(s)
  {
    forall actions, s' | Run(s, actions, s') ensures !s'.touchedDeleted {
      RunKeeps(s, actions, s');
    }
  }

  /** The count that the assignment adds to is that of a deleted object. */
  lemma SelfCopyTouches(s: State, t: Owner, a: Slot, o: Object) returns (actions: seq<Action>, s': State)
    requires t.Thread? && t in s.owners && a in s.owners[t].slots && o in s.count && o in s.deleted
    requires s.owners[t].code == [Store(a, Uncounted(o)), FetchAdd(a)]
    ensures Run(s, actions, s') && s'.touchedDeleted
  {
    var s1 := Apply(s, Step(t));
    assert s1.owners[t].code == [FetchAdd(a)] && s1.owners[t].slots[a] == Uncounted(o);
    s' := Apply(s1, Step(t));
    assert Run(s', [], s');
    assert [Step(t)][1..] == [] && [Step(t), Step(t)][1..] == [Step(t)];
    assert Run(s1, [Step(t)], s');
    actions := [Step(t), Step(t)];
  }

  /** Destroying the pointer instead leads to a run that deletes the object. */
  lemma DestroyDeletes(s: State, t: Owner, a: Slot, o: Object) returns (actions: seq<Action>, s': State)
    requires Invariant(s) && OthersIdle(s, t) && s.owners[t].code == [FetchSub(a)]
    requires a in s.owners[t].slots && s.owners[t].slots[a] == Counted(o) && o in s.count
    requires forall b :: b in s.owners[t].slots && b != a ==> s.owners[t].slots[b] != Counted(o)
    requires OnlyThread(s, t) ==> s.count[o] <= 1
    ensures HelpingRun(s, t, actions, s')
    ensures t in s'.owners && s'.owners[t].code == [] && a in s'.owners[t].slots && o in s'.deleted && o in s'.count
  {
    HolderKeepsAlive(s, t, a);
    if OnlyThread(s, t) {
      actions, s' := LastIsDeleted(s, t, a, o);
    } else {
      var w :| w in s.owners && w.Thread? && w != t;
      var first, s1 := OthersLetGo(s, t, w, a, o);
      HelpingKeeps(s, t, first, s1);
      var rest;
      rest, s' := LastIsDeleted(s1, t, a, o);
      HelpingConcat(s, t, first, s1, rest, s');
      actions := first + rest;
    }
  }

  lemma DestroyBegun(s: State, t: Owner, a: Slot, o: Object) returns (s0: State)
    requires Invariant(s) && t.Thread? && t in s.owners && s.owners[t].code == []
    requires a in s.owners[t].slots && (t, a) !in s.shared && s.owners[t].slots[a] == Counted(o)
    ensures Invariant(s0) && s0 == s.(owners := s.owners[t := Local(s.owners[t].slots, [FetchSub(a)], [])])
    ensures Extended(s0, t, [Store(a, Uncounted(o)), FetchAdd(a)]) == SelfCopyBegun(s, t, a)
  {
    var tail := [Store(a, Uncounted(o)), FetchAdd(a)];
    var l := Local(s.owners[t].slots, [FetchSub(a)], []);
    s0 := s.(owners := s.owners[t := l]);
    assert LocalOk(s.owners[t]);
    OperationsAreBalanced(Destroy(a), l.slots);
    assert Kept(l) == {};
    BeginKeeps(s, t, l);
    assert [FetchSub(a)] + tail == CopyCode(a, Counted(o));
  }

  lemma UnsafeSelfCopy(s: State, t: Owner, a: Slot, o: Object) returns (actions: seq<Action>, s': State)
    requires Invariant(s) && forall u :: u in s.owners ==> s.owners[u].code == []
    requires t.Thread? && t in s.owners && a in s.owners[t].slots && (t, a) !in s.shared
    requires s.owners[t].slots[a] == Counted(o) && o in s.count && !SafeSelfCopy(s.owners[t].slots, a)
    requires OnlyThread(s, t) ==> s.count[o] <= 1
    ensures Run(SelfCopyBegun(s, t, a), actions, s') && s'.touchedDeleted
  {
    var tail := [Store(a, Uncounted(o)), FetchAdd(a)];
    var s0 := DestroyBegun(s, t, a, o);
    var first, s1 := DestroyDeletes(s0, t, a, o);
    ExtendedRun(s0, t, tail, first, s1);
    var s2 := Extended(s1, t, tail);
    assert s2.owners[t].code == tail;
    var last;
    last, s' := SelfCopyTouches(s2, t, a, o);
    RunConcat(SelfCopyBegun(s, t, a), first, s2, last, s');
    actions := first + last;
  }

  lemma SafeSelfCopyKeeps(s: State, t: Owner, a: Slot)
    requires Invariant(s) && t.Thread? && t in s.owners && s.owners[t].code == []
    requires a in s.owners[t].slots && (t, a) !in s.shared && SafeSelfCopy(s.owners[t].slots, a)
    ensures Invariant(SelfCopyBegun(s, t, a))
  {
    ApplyKeeps(s, Begin(t, Copy(a, a)));
    assert Apply(s, Begin(t, Copy(a, a))) == SelfCopyBegun(s, t, a);
  }

  /** Without other threads nothing comes between the steps. */
  lemma AloneStep(s: State, t: Owner)
    requires OnlyThread(s, t) && t in s.owners && s.owners[t].code != [] && !s.touchedDeleted
    requires Enabled(s, Step(t)) ==> NeverTouches(Execute(s, t))
    ensures NeverTouches(s)
  {
    forall actions: seq<Action>, s' | Run(s, actions, s') ensures !s'.touchedDeleted {
      if actions != [] {
        assert actions[0].thread == t;
        assert actions[0] == Step(t);
        assert Run(Execute(s, t), actions[1..], s');
      }
    }
  }

  /** The state after the last steps of a self-assignment that leave this code, with the
      given value in the slot and `n` as the count. */
  ghost function Between(s: State, t: Owner, a: Slot, p: Pointer, code: seq<Instruction>, o: Object, n: int): State
    requires t in s.owners
  {
    s.(owners := s.owners[t := Local(s.owners[t].slots[a := p], code, [])], count := s.count[o := n])
  }

  lemma AloneSub(s: State, t: Owner, a: Slot, o: Object, n: int, rest: seq<Instruction>)
    requires t.Thread? && t in s.owners && o in s.count && o !in s.deleted && n > 1
    ensures var s0 := Between(s, t, a, Counted(o), [FetchSub(a)] + rest, o, n);
            Enabled(s0, Step(t)) && Execute(s0, t) == Between(s, t, a, Uncounted(o), [Clear(a)] + rest, o, n - 1)
  {
    assert ([FetchSub(a)] + rest)[1..] == rest;
    var slots: map<Slot, Pointer> := s.owners[t].slots;
    assert slots[a := Counted(o)][a := Uncounted(o)] == slots[a := Uncounted(o)];
    var s0 := Between(s, t, a, Counted(o), [FetchSub(a)] + rest, o, n);
    var s1 := Between(s, t, a, Uncounted(o), [Clear(a)] + rest, o, n - 1);
    assert Execute(s0, t).owners == s1.owners && Execute(s0, t).count == s1.count;
  }

  lemma AloneWrite(s: State, t: Owner, a: Slot, p: Pointer, v: Pointer, i: Instruction, o: Object, n: int,
                   rest: seq<Instruction>)
    requires t.Thread? && t in s.owners && (i == Store(a, v) || (i == Clear(a) && v == Null))
    ensures var s0 := Between(s, t, a, p, [i] + rest, o, n);
            Enabled(s0, Step(t)) && Execute(s0, t) == Between(s, t, a, v, rest, o, n)
  {
    assert ([i] + rest)[1..] == rest;
    var slots: map<Slot, Pointer> := s.owners[t].slots;
    assert slots[a := p][a := v] == slots[a := v];
    var s0, s1 := Between(s, t, a, p, [i] + rest, o, n), Between(s, t, a, v, rest, o, n);
    assert Execute(s0, t).owners == s1.owners;
  }

  lemma AloneAdd(s: State, t: Owner, a: Slot, o: Object, n: int, rest: seq<Instruction>)
    requires t.Thread? && t in s.owners && o !in s.deleted
    ensures var s0 := Between(s, t, a, Uncounted(o), [FetchAdd(a)] + rest, o, n);
            Enabled(s0, Step(t)) && Execute(s0, t) == Between(s, t, a, Counted(o), rest, o, n + 1)
  {
    assert ([FetchAdd(a)] + rest)[1..] == rest;
    var slots: map<Slot, Pointer> := s.owners[t].slots;
    assert slots[a := Uncounted(o)][a := Counted(o)] == slots[a := Counted(o)];
    var s0 := Between(s, t, a, Uncounted(o), [FetchAdd(a)] + rest, o, n);
    var s1 := Between(s, t, a, Counted(o), rest, o, n + 1);
    assert Execute(s0, t).owners == s1.owners && Execute(s0, t).count == s1.count;
  }

  lemma BetweenIsAlone(s: State, t: Owner, a: Slot, p: Pointer, code: seq<Instruction>, o: Object, n: int)
    requires OnlyThread(s, t) && t in s.owners && !s.touchedDeleted && code != []
    requires var s0 := Between(s, t, a, p, code, o, n);
             Enabled(s0, Step(t)) ==> NeverTouches(Execute(s0, t))
    ensures NeverTouches(Between(s, t, a, p, code, o, n))
  {
    AloneStep(Between(s, t, a, p, code, o, n), t);
  }

  /** A thread that is alone can take a reference away and add it again, if another is left. */
  lemma AloneSelfCopy(s: State, t: Owner, a: Slot, o: Object)
    requires Invariant(s) && OnlyThread(s, t) && t.Thread? && t in s.owners && s.owners[t].code == []
    requires a in s.owners[t].slots && s.owners[t].slots[a] == Counted(o) && o in s.count && s.count[o] > 1
    ensures NeverTouches(SelfCopyBegun(s, t, a))
  {
    HolderKeepsAlive(s, t, a);
    var n := s.count[o];
    var v := Uncounted(o);
    var add, store := [FetchAdd(a)] + [], [Store(a, v)] + ([FetchAdd(a)] + []);
    AloneEnds(s, t, a, o);
    AloneAdd(s, t, a, o, n - 1, []);
    BetweenIsAlone(s, t, a, v, add, o, n - 1);
    AloneWrite(s, t, a, Null, v, Store(a, v), o, n - 1, add);
    BetweenIsAlone(s, t, a, Null, store, o, n - 1);
    AloneWrite(s, t, a, v, Null, Clear(a), o, n - 1, store);
    BetweenIsAlone(s, t, a, v, [Clear(a)] + store, o, n - 1);
    AloneSub(s, t, a, o, n, store);
    BetweenIsAlone(s, t, a, Counted(o), [FetchSub(a)] + store, o, n);
    AloneBegins(s, t, a, o);
  }

  lemma AloneBegins(s: State, t: Owner, a: Slot, o: Object)
    requires t in s.owners && a in s.owners[t].slots && s.owners[t].slots[a] == Counted(o) && o in s.count
    ensures var store := [Store(a, Uncounted(o))] + ([FetchAdd(a)] + []);
            SelfCopyBegun(s, t, a) == Between(s, t, a, Counted(o), [FetchSub(a)] + store, o, s.count[o])
  {
    var store := [Store(a, Uncounted(o))] + ([FetchAdd(a)] + []);
    assert [FetchSub(a)] + store == CopyCode(a, Counted(o));
    assert s.count[o := s.count[o]] == s.count && s.owners[t].slots[a := Counted(o)] == s.owners[t].slots;
  }

  lemma AloneEnds(s: State, t: Owner, a: Slot, o: Object)
    requires Invariant(s) && t.Thread? && t in s.owners && s.owners[t].code == []
    requires a in s.owners[t].slots && s.owners[t].slots[a] == Counted(o) && o in s.count
    ensures NeverTouches(Between(s, t, a, Counted(o), [], o, s.count[o]))
  {
    var l := Local(s.owners[t].slots, [], []);
    assert LocalOk(s.owners[t]);
    BeginKeeps(s, t, l);
    InvariantNeverTouches(s.(owners := s.owners[t := l]));
    assert s.count[o := s.count[o]] == s.count && s.owners[t].slots[a := Counted(o)] == s.owners[t].slots;
  }

  /** From a state between operations: a slot that is not shared can be assigned to itself
      without any run reaching a deleted object exactly if it is null, or the thread has another
      pointer to the same object, or there is no other thread and some object has one. That
      another thread has one is not enough, nor that an object has one that another thread can
      take out. */
  lemma SelfCopyIsSafeIff(s: State, t: Owner, a: Slot)
    requires Invariant(s) && forall u :: u in s.owners ==> s.owners[u].code == []
    requires t.Thread? && t in s.owners && a in s.owners[t].slots && (t, a) !in s.shared
    ensures var p := s.owners[t].slots[a];
            NeverTouches(SelfCopyBegun(s, t, a)) <==>
              || SafeSelfCopy(s.owners[t].slots, a)
              || (OnlyThread(s, t) && p.target in s.count && s.count[p.target] > 1)
  {
    if SafeSelfCopy(s.owners[t].slots, a) {
      SafeSelfCopyKeeps(s, t, a);
      InvariantNeverTouches(SelfCopyBegun(s, t, a));
    } else {
      assert LocalOk(s.owners[t]);
      var o := s.owners[t].slots[a].target;
      HolderKeepsAlive(s, t, a);
      if OnlyThread(s, t) && s.count[o] > 1 {
        AloneSelfCopy(s, t, a, o);
      } else {
        var actions, s' := UnsafeSelfCopy(s, t, a, o);
      }
    }
  }
}
