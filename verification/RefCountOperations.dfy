/** What the operations on counted pointers achieve, whatever other threads do between their
    steps (default/quiche_platform_impl/quiche_reference_counted_impl.h, lines 41-127). */
module RefCountOperations {
  import opened RefCountThreads
  import opened RefCountThreadsRuns

  // ---------------------------------------------------------------------------------------
  // What is promised
  // ---------------------------------------------------------------------------------------

  /** What a slot holds after an operation, in terms of what the slots held before. */
  function Outcome(op: Operation, slots: map<Slot, Pointer>, x: Slot): Pointer
    requires Applicable(op, slots) && x in slots
  {
    match op
    case Destroy(a) => if x == a then Null else slots[x]
    case Copy(a, b) => if x == a then slots[b] else slots[x]
    case Move(a, b) =>  // from itself it lets go of the object
      if x == b then Null else if x == a then slots[b] else slots[x]
    case ConvertingMove(a, b) => if x == b then Null else if x == a then slots[b] else slots[x]
    case Wrap(a, o) => if x == a then Counted(o) else slots[x]
  }

  /** The slots are as given, and all others are null: they are those of members that were
      released with their object. */
  ghost predicate EndsWith(slots: map<Slot, Pointer>, outcome: map<Slot, Pointer>) {
    && outcome.Keys <= slots.Keys
    && forall x :: x in slots ==> slots[x] == if x in outcome then outcome[x] else Null
  }

  /** A run from the first step of an operation of thread `t` to its last, with any steps of
      other threads in between. */
  ghost predicate OperationRun(s: State, t: Owner, actions: seq<Action>, s': State)
    decreases |actions|
  {
    && t in s.owners
    && if actions == [] then s' == s && s.owners[t].code == []
       else
         && s.owners[t].code != [] && Enabled(s, actions[0])
         && OperationRun(Apply(s, actions[0]), t, actions[1..], s')
  }

  // ---------------------------------------------------------------------------------------
  // What code leads to
  // ---------------------------------------------------------------------------------------

  /** The slots when the code has been executed; a deletion leaves the slots it began with. */
  ghost function Effect(slots: map<Slot, Pointer>, code: seq<Instruction>): map<Slot, Pointer>
    decreases |code|
  {
    if code == [] then slots
    else
      var i, rest := code[0], code[1..];
      if i.slot !in slots then Effect(slots, rest)
      else Effect(After(slots, i), rest)
  }

  function After(slots: map<Slot, Pointer>, i: Instruction): map<Slot, Pointer>
    requires i.slot in slots
  {
    var p := slots[i.slot];
    match i
    case FetchSub(a) => slots[a := Null]
    case Delete(a) => slots
    case Clear(a) => slots[a := Null]
    case Store(a, v) => slots[a := v]
    case FetchAdd(a) => if p.Null? then slots else slots[a := Counted(p.target)]
    case Steal(b, a) => slots[a := p][b := Null]
    case Adopt(a, o) => slots[a := Counted(o)]
  }

  lemma {:induction false} EffectConcat(slots: map<Slot, Pointer>, xs: seq<Instruction>, ys: seq<Instruction>)
    ensures Effect(slots, xs + ys) == Effect(Effect(slots, xs), ys)
    decreases |xs|
  {
    if xs == [] {
      assert xs + ys == ys;
    } else {
      assert (xs + ys)[1..] == xs[1..] + ys;
      EffectConcat(if xs[0].slot in slots then After(slots, xs[0]) else slots, xs[1..], ys);
    }
  }

  lemma EffectFirst(slots: map<Slot, Pointer>, i: Instruction, rest: seq<Instruction>)
    requires i.slot in slots
    ensures Effect(slots, [i] + rest) == Effect(After(slots, i), rest)
  {
    assert ([i] + rest)[1..] == rest;
  }

  /** The code of an operation leads to its outcome. */
  lemma CopyEffect(slots: map<Slot, Pointer>, a: Slot, p: Pointer, rest: seq<Instruction>)
    requires a in slots && !p.Uncounted?
    ensures Effect(slots, CopyCode(a, p) + rest) == Effect(slots[a := p], rest)
  {
    var s1 := slots[a := Null];
    var s2 := s1[a := Raw(p)];
    EffectFirst(slots, FetchSub(a), [Store(a, Raw(p))] + ([FetchAdd(a)] + rest));
    EffectFirst(s1, Store(a, Raw(p)), [FetchAdd(a)] + rest);
    EffectFirst(s2, FetchAdd(a), rest);
    assert After(s2, FetchAdd(a)) == slots[a := p];
    assert CopyCode(a, p) + rest == [FetchSub(a)] + ([Store(a, Raw(p))] + ([FetchAdd(a)] + rest));
  }

  ghost function OutcomeMap(op: Operation, slots: map<Slot, Pointer>): map<Slot, Pointer>
    requires Applicable(op, slots)
  {
    map x | x in slots :: Outcome(op, slots, x)
  }

  lemma CodeEffect(op: Operation, slots: map<Slot, Pointer>)
    requires Balanced(slots, {}, []) && Applicable(op, slots)
    ensures Effect(slots, Code(op, slots)) == OutcomeMap(op, slots)
  {
    var code, a := Code(op, slots), op.slot;
    match op
    case Destroy(_) =>
      EffectFirst(slots, FetchSub(a), []);
      assert [FetchSub(a)] + [] == code;
      assert slots[a := Null] == OutcomeMap(op, slots);
    case Copy(_, b) =>
      CopyEffect(slots, a, slots[b], []);
      assert CopyCode(a, slots[b]) + [] == code;
      assert slots[a := slots[b]] == OutcomeMap(op, slots);
    case Move(_, b) => MoveEffect(slots, a, b);
    case ConvertingMove(_, b) =>
      CopyEffect(slots, a, slots[b], [FetchSub(b)]);
      EffectFirst(slots[a := slots[b]], FetchSub(b), []);
      assert [FetchSub(b)] + [] == [FetchSub(b)];
      assert slots[a := slots[b]][b := Null] == OutcomeMap(op, slots);
    case Wrap(_, o) =>
      EffectFirst(slots, FetchSub(a), [Adopt(a, o)]);
      EffectFirst(slots[a := Null], Adopt(a, o), []);
      assert [FetchSub(a)] + [Adopt(a, o)] == code && [Adopt(a, o)] + [] == [Adopt(a, o)];
      assert slots[a := Null][a := Counted(o)] == OutcomeMap(op, slots);
  }

  lemma MoveEffect(slots: map<Slot, Pointer>, a: Slot, b: Slot)
    requires Balanced(slots, {}, []) && a in slots && b in slots
    ensures Effect(slots, Code(Move(a, b), slots)) == OutcomeMap(Move(a, b), slots)
  {
    var code := Code(Move(a, b), slots);
    if a == b {
      EffectFirst(slots, FetchSub(a), []);
      assert [FetchSub(a)] + [] == code;
      assert slots[a := Null] == OutcomeMap(Move(a, b), slots);
    } else {
      var v := Raw(slots[b]);
      var s1 := slots[a := Null];
      var s2: map<Slot, Pointer> := s1[a := v];
      EffectFirst(slots, FetchSub(a), [Store(a, v)] + ([Steal(b, a)] + []));
      EffectFirst(s1, Store(a, v), [Steal(b, a)] + []);
      EffectFirst(s2, Steal(b, a), []);
      assert [FetchSub(a)] + ([Store(a, v)] + ([Steal(b, a)] + [])) == code;
      assert s2[a := s2[b]][b := Null] == OutcomeMap(Move(a, b), slots);
    }
  }

  // ---------------------------------------------------------------------------------------
  // Released members
  // ---------------------------------------------------------------------------------------

  lemma {:induction false} EffectOfMore(slots: map<Slot, Pointer>, more: map<Slot, Pointer>, code: seq<Instruction>)
    requires EndsWith(more, slots) && WritesIn(code, slots.Keys)
    ensures EndsWith(Effect(more, code), Effect(slots, code))
    decreases |code|
  {
    if code != [] {
      var i := code[0];
      AfterMore(slots, more, i);
      EffectOfMore(After(slots, i), After(more, i), code[1..]);
    }
  }

  /** The code writes these slots alone. */
  ghost predicate WritesIn(code: seq<Instruction>, keys: set<Slot>) {
    forall k :: 0 <= k < |code| ==> code[k].slot in keys && (code[k].Steal? ==> code[k].to in keys)
  }

  lemma AfterMore(slots: map<Slot, Pointer>, more: map<Slot, Pointer>, i: Instruction)
    requires EndsWith(more, slots) && i.slot in slots && (i.Steal? ==> i.to in slots)
    ensures EndsWith(After(more, i), After(slots, i)) && After(slots, i).Keys == slots.Keys
  {
  }

  lemma {:induction false} BalancedWritesIn(slots: map<Slot, Pointer>, kept: set<Object>, code: seq<Instruction>)
    requires Balanced(slots, kept, code)
    ensures WritesIn(code, slots.Keys)
    decreases |code|
  {
    if code != [] {
      var next := BalancedNext(slots, kept, code);
      BalancedWritesIn(next, kept, code[1..]);
    }
  }

  lemma BalancedNext(slots: map<Slot, Pointer>, kept: set<Object>, code: seq<Instruction>) returns (next: map<Slot, Pointer>)
    requires Balanced(slots, kept, code) && code != []
    ensures Balanced(next, kept, code[1..]) && next.Keys == slots.Keys && next == After(slots, code[0])
    ensures code[0].slot in slots && (code[0].Steal? ==> code[0].to in slots)
  {
    next := After(slots, code[0]);
  }

  lemma {:induction false} ReleasesEffect(slots: map<Slot, Pointer>, order: seq<Slot>)
    requires forall x :: x in order ==> x in slots
    ensures Effect(slots, ReleaseCode(order)) == Nulled(slots, order)
    decreases |order|
  {
    if order == [] {
      assert Nulled(slots, order) == slots;
    } else {
      var x, rest := order[0], order[1..];
      assert order == [x] + rest;
      EffectFirst(slots, FetchSub(x), ReleaseCode(rest));
      ReleasesEffect(slots[x := Null], rest);
      assert Nulled(slots[x := Null], rest) == Nulled(slots, order);
    }
  }

  /** A thread that gets members and the code to release them comes to the same. */
  lemma MembersEffect(slots: map<Slot, Pointer>, members: map<Slot, Pointer>, kept: set<Object>, code: seq<Instruction>)
    requires members.Keys !! slots.Keys && Balanced(slots, kept, code)
    ensures EndsWith(Effect(slots + members, ReleaseCode(Downward(members.Keys)) + code), Effect(slots, code))
  {
    var order := Downward(members.Keys);
    ReleasesEffect(slots + members, order);
    EffectConcat(slots + members, ReleaseCode(order), code);
    BalancedWritesIn(slots, kept, code);
    EffectOfMore(slots, Nulled(slots + members, order), code);
  }

  // ---------------------------------------------------------------------------------------
  // Steps of the thread
  // ---------------------------------------------------------------------------------------

  /** Where the thread is heading. */
  ghost function Heading(l: Local): map<Slot, Pointer> {
    Effect(l.slots, if Deleting(l) then l.code[1..] else l.code)
  }

  lemma EndsWithTwice(a: map<Slot, Pointer>, b: map<Slot, Pointer>, c: map<Slot, Pointer>)
    requires EndsWith(a, b) && EndsWith(b, c)
    ensures EndsWith(a, c)
  {
  }

  lemma SubHeading(l: Local, a: Slot, o: Object)
    requires LocalOk(l) && l.code != [] && l.code[0] == FetchSub(a) && a in l.slots
    ensures var slots := l.slots[a := Uncounted(o)];
            && Heading(Local(slots, [Clear(a)] + l.code[1..], l.lent)) == Heading(l)
            && Heading(Local(slots, [Delete(a), Clear(a)] + l.code[1..], l.lent)) == Heading(l)
  {
    var rest := l.code[1..];
    var slots := l.slots[a := Uncounted(o)];
    EffectFirst(slots, Clear(a), rest);
    assert slots[a := Null] == l.slots[a := Null];
    assert ([Delete(a), Clear(a)] + rest)[1..] == [Clear(a)] + rest;
  }

  lemma SubStep(s: State, t: Owner)
    requires Invariant(s) && Enabled(s, Step(t)) && s.owners[t].code[0].FetchSub?
    ensures Heading(Execute(s, t).owners[t]) == Heading(s.owners[t])
  {
    var l := s.owners[t];
    var a := l.code[0].slot;
    assert LocalOk(l);
    if l.slots[a].Null? {
      assert l.slots[a := Null] == l.slots;
      BalancedIsLocalOk(Local(l.slots, l.code[1..], l.lent));
    } else {
      SubHeading(l, a, l.slots[a].target);
    }
  }

  lemma DeleteStep(s: State, t: Owner)
    requires Invariant(s) && Enabled(s, Step(t)) && s.owners[t].code[0].Delete?
    ensures t in Execute(s, t).owners && EndsWith(Heading(Execute(s, t).owners[t]), Heading(s.owners[t]))
  {
    var o := DoomedHome(s, t);
    var l := s.owners[t];
    MembersAreSettled(s, t, o);
    MembersEffect(l.slots, Members(s, o), Kept(l), l.code[1..]);
    DeleteIsLocalOk(l, o, Members(s, o));
    DeleteState(s, t, o);
  }

  lemma WriteStep(s: State, t: Owner)
    requires Invariant(s) && Enabled(s, Step(t)) && !s.owners[t].code[0].Delete? && !s.owners[t].code[0].FetchSub?
    ensures t in Execute(s, t).owners && Heading(Execute(s, t).owners[t]) == Heading(s.owners[t])
  {
    var l := s.owners[t];
    var l' := Execute(s, t).owners[t];
    assert LocalOk(l);
    assert l' == Local(After(l.slots, l.code[0]), l.code[1..], l.lent);
    var next := BalancedNext(l.slots, Kept(l), l.code);
    BalancedIsLocalOk(l');
  }

  /** A step of the thread itself goes on heading for the same. */
  lemma OwnStep(s: State, t: Owner)
    requires Invariant(s) && Enabled(s, Step(t))
    ensures t in Execute(s, t).owners && EndsWith(Heading(Execute(s, t).owners[t]), Heading(s.owners[t]))
  {
    if s.owners[t].code[0].Delete? {
      DeleteStep(s, t);
    } else if s.owners[t].code[0].FetchSub? {
      SubStep(s, t);
    } else {
      WriteStep(s, t);
    }
  }

  /** Nothing another thread does touches a thread that is busy. */
  lemma OthersLeaveAlone(s: State, t: Owner, a: Action)
    requires Enabled(s, a) && a.thread != t && t.Thread? && t in s.owners && s.owners[t].code != []
    ensures t in Apply(s, a).owners && Apply(s, a).owners[t] == s.owners[t]
  {
    if a.Step? {
      StepLeavesOthers(s, a.thread, t);
    }
  }

  lemma {:induction false} HeadingIsReached(s: State, t: Owner, actions: seq<Action>, s': State)
    requires Invariant(s) && t.Thread? && OperationRun(s, t, actions, s')
    ensures t in s'.owners && EndsWith(s'.owners[t].slots, Heading(s.owners[t]))
    decreases |actions|
  {
    if actions != [] {
      var a := actions[0];
      if a.thread == t {
        OwnStep(s, t);
      } else {
        OthersLeaveAlone(s, t, a);
      }
      ApplyKeeps(s, a);
      var s1 := Apply(s, a);
      HeadingIsReached(s1, t, actions[1..], s');
      EndsWithTwice(s'.owners[t].slots, Heading(s1.owners[t]), Heading(s.owners[t]));
    }
  }

  // ---------------------------------------------------------------------------------------
  // What is achieved
  // ---------------------------------------------------------------------------------------

  /** Whatever other threads do meanwhile, at the end of an operation the slots of the thread
      hold what the operation is for, those it does not name hold what they held, and all
      members of objects that were deleted on the way have been released. */
  lemma OperationAchieves(s: State, t: Owner, op: Operation, actions: seq<Action>, s': State)
    requires Invariant(s) && Enabled(s, Begin(t, op)) && OperationRun(Apply(s, Begin(t, op)), t, actions, s')
    ensures t in s'.owners
    ensures forall x :: x in s.owners[t].slots ==>
              x in s'.owners[t].slots && s'.owners[t].slots[x] == Outcome(op, s.owners[t].slots, x)
    ensures forall x :: x in s'.owners[t].slots && x !in s.owners[t].slots ==> s'.owners[t].slots[x].Null?
  {
    var slots := s.owners[t].slots;
    assert LocalOk(s.owners[t]);
    ApplyKeeps(s, Begin(t, op));
    CodeEffect(op, slots);
    OperationsAreBalanced(op, slots);
    BalancedIsLocalOk(Local(slots, Code(op, slots), []));
    HeadingIsReached(Apply(s, Begin(t, op)), t, actions, s');
  }

  /** The code of a copy from a shared slot, and where it leads. */
  lemma SharedCopyHeading(s: State, a: Action)
    requires Invariant(s) && Enabled(s, a) && a.BeginSharedCopy?
    ensures a.thread in Apply(s, a).owners
    ensures Heading(Apply(s, a).owners[a.thread]) == s.owners[a.thread].slots[a.slot := s.owners[a.owner].slots[a.from]]
  {
    var t, p := a.thread, s.owners[a.owner].slots[a.from];
    var l := Apply(s, a).owners[t];
    assert Untouched(s.owners[a.owner], a.from);
    SharedCopyIsBalanced(s, a);
    BalancedIsLocalOk(l);
    CopyEffect(l.slots, a.slot, p, []);
    assert CopyCode(a.slot, p) + [] == l.code;
  }

  /** The same for a copy from a shared slot: the slot ends with what that one held when the
      copy began. */
  lemma SharedCopyAchieves(s: State, a: Action, actions: seq<Action>, s': State)
    requires Invariant(s) && Enabled(s, a) && a.BeginSharedCopy? && OperationRun(Apply(s, a), a.thread, actions, s')
    ensures var slots, t := s.owners[a.thread].slots, a.thread;
            && t in s'.owners
            && (forall x :: x in slots ==>
                  x in s'.owners[t].slots
                  && s'.owners[t].slots[x] == if x == a.slot then s.owners[a.owner].slots[a.from] else slots[x])
            && (forall x :: x in s'.owners[t].slots && x !in slots ==> s'.owners[t].slots[x].Null?)
  {
    SharedCopyHeading(s, a);
    ApplyKeeps(s, a);
    HeadingIsReached(Apply(s, a), a.thread, actions, s');
  }

  /** A pointer that is handed over, to a thread or into an object, is with its new owner alone and
      holds what it held. */
  lemma HandOverMoves(s: State, t: Owner, x: Slot, u: Owner)
    requires Invariant(s) && Enabled(s, HandOver(t, x, u))
    ensures var s' := Apply(s, HandOver(t, x, u));
            && s'.owners[u].slots == s.owners[u].slots[x := s.owners[t].slots[x]]
            && s'.owners[t].slots == s.owners[t].slots - {x}
            && forall w :: w in s.owners && w != t && w != u ==> s'.owners[w] == s.owners[w]
  {
  }

  /** So is one that a thread takes out of an object. */
  lemma TakeOutMoves(s: State, t: Owner, o: Object, x: Slot)
    requires Invariant(s) && Enabled(s, TakeOut(t, o, x))
    ensures var s' := Apply(s, TakeOut(t, o, x));
            && s'.owners[t].slots == s.owners[t].slots[x := s.owners[Inside(o)].slots[x]]
            && s'.owners[Inside(o)].slots == s.owners[Inside(o)].slots - {x}
            && forall w :: w in s.owners && w != t && w != Inside(o) ==> s'.owners[w] == s.owners[w]
  {
  }
}
