/** The reference count under concurrency
    (default/quiche_platform_impl/quiche_reference_counted_impl.h).

    Any number of threads run the pointer operations on slots they own. Objects own slots too,
    their member pointers, which are released with them. A thread may move a pointer into an
    object or out of one, and may copy from slots that are shared, its own or others' or those
    of objects: a shared slot is not written, and it is not taken back while a copy from it is
    under way. The atomic fetch_add and fetch_sub are single steps, and so is every plain store;
    steps of different threads interleave in any way (sequentially consistent). */
module RefCountThreads {
  type Object = nat
  type Slot = nat

  /** Who a slot belongs to. */
  datatype Owner = Thread(id: nat) | Inside(host: Object)

  /** A pointer variable. `Uncounted` is a stored pointer that the count does not include:
      stored but not yet added, or already subtracted but not yet cleared. */
  datatype Pointer = Null | Counted(target: Object) | Uncounted(target: Object)

  datatype Instruction =
    | FetchSub(slot: Slot)                    // RemoveReference: null test and fetch_sub
    | Delete(slot: Slot)                      // delete implicitly_cast_object
    | Clear(slot: Slot)                       // object_ = nullptr after the count was given up
    | Store(slot: Slot, value: Pointer)       // object_ = new_object
    | FetchAdd(slot: Slot)                    // AddReference: null test and fetch_add
    | Steal(slot: Slot, to: Slot)             // other.object_ = nullptr, the count goes to `to`
    | Adopt(slot: Slot, target: Object)       // object_ = p for a new object, whose count is 1

  /** A shared slot, and what it holds as long as it is lent. */
  datatype Lent = Lent(owner: Owner, slot: Slot, target: Object)

  /** What belongs to an owner: its slots, and for a thread the steps left of its current
      operation and the slots on whose contents that relies. */
  datatype Local = Local(slots: map<Slot, Pointer>, code: seq<Instruction>, lent: seq<Lent>)

  datatype State = State(
    owners: map<Owner, Local>,
    shared: set<(Owner, Slot)>,    // slots that any thread may copy from and none may write
    count: map<Object, int>,        // every object ever created
    deleted: set<Object>,
    zeros: multiset<Object>,        // one entry per fetch_sub that arrived at zero
    doomed: map<Object, Owner>,    // who saw zero and has not deleted the object yet
    touchedDeleted: bool)           // some step read or wrote a deleted object

  // ---------------------------------------------------------------------------------------
  // The operations of the pointer class as instruction sequences
  // ---------------------------------------------------------------------------------------

  datatype Operation =
    | Destroy(slot: Slot)
    | Copy(slot: Slot, from: Slot)
    | Move(slot: Slot, from: Slot)
    | ConvertingMove(slot: Slot, from: Slot)
    | Wrap(slot: Slot, target: Object)

  /** The steps of copying what another slot holds. */
  function CopyCode(a: Slot, value: Pointer): seq<Instruction> {
    [FetchSub(a), Store(a, Raw(value)), FetchAdd(a)]
  }

  /** Assignment; construction is assignment to a slot that holds null. `other.object_` is
      read before the old reference is removed. */
  function Code(op: Operation, slots: map<Slot, Pointer>): seq<Instruction>
    requires Applicable(op, slots)
  {
    match op
    case Destroy(a) => [FetchSub(a)]
    case Copy(a, b) => CopyCode(a, slots[b])
    case Move(a, b) =>
      if a == b then [FetchSub(a)]  // the two stores that follow leave null, and only in this slot
      else [FetchSub(a), Store(a, Raw(slots[b])), Steal(b, a)]
    case ConvertingMove(a, b) => CopyCode(a, slots[b]) + [FetchSub(b)]
    case Wrap(a, p) => [FetchSub(a), Adopt(a, p)]
  }

  function Raw(p: Pointer): Pointer {
    if p.Null? then Null else Uncounted(p.target)
  }

  /** Assigning a pointer from itself is safe when it is null or another slot of the same
      thread refers to the same object (SelfCopyIsBalancedIff, SelfCopyOfLastReference). */
  predicate SafeSelfCopy(slots: map<Slot, Pointer>, a: Slot)
    requires a in slots
  {
    slots[a].Null? || exists b :: b in slots && b != a && slots[b] == slots[a]
  }

  predicate Applicable(op: Operation, slots: map<Slot, Pointer>) {
    && op.slot in slots
    && match op
       case Destroy(_) => true
       case Copy(a, b) => b in slots && (a == b ==> SafeSelfCopy(slots, a))
       case Move(a, b) => b in slots
       case ConvertingMove(a, b) => b in slots && a != b
       case Wrap(_, _) => true
  }

  /** The slots that an operation writes. */
  function Written(op: Operation): set<Slot> {
    if op.Move? || op.ConvertingMove? then {op.slot, op.from} else {op.slot}
  }

  // ---------------------------------------------------------------------------------------
  // Steps
  // ---------------------------------------------------------------------------------------

  datatype Action =
    | Declare(thread: Owner, slot: Slot)                     // default construction
    | Begin(thread: Owner, op: Operation)
    | BeginSharedCopy(thread: Owner, slot: Slot, path: seq<Lent>, owner: Owner, from: Slot)
    | Step(thread: Owner)
    | ReadUnique(thread: Owner, slot: Slot)                  // HasUniqueReference
    | HandOver(thread: Owner, slot: Slot, to: Owner)         // to a thread, or into an object
    | TakeOut(thread: Owner, host: Object, slot: Slot)
    | Share(thread: Owner, owner: Owner, slot: Slot)
    | Unshare(thread: Owner, owner: Owner, slot: Slot)

  ghost predicate Enabled(s: State, a: Action) {
    && a.thread.Thread? && a.thread in s.owners
    && var me := s.owners[a.thread];
       match a
       case Declare(t, x) => me.code == [] && forall u :: u in s.owners ==> x !in s.owners[u].slots
       case Begin(t, op) =>
         me.code == [] && Applicable(op, me.slots) && forall x :: x in Written(op) ==> (t, x) !in s.shared
       case BeginSharedCopy(t, x, path, u, y) =>
         && me.code == [] && x in me.slots && (t, x) !in s.shared
         && (forall e :: e in path ==> Lends(s.owners, s.shared, e) && Reaches(me.slots, x, path, e.owner))
         && (u, y) in s.shared && u in s.owners && y in s.owners[u].slots && Reaches(me.slots, x, path, u)
       case Step(t) =>
         && me.code != []
         && var i := me.code[0];
            && i.slot in me.slots
            && (i.Steal? ==> i.to in me.slots)
            && (i.Adopt? ==> i.target !in s.count)
            && (i.FetchSub? || i.FetchAdd? || i.Delete? ==> Known(s.count, me.slots[i.slot]))
       case ReadUnique(t, x) => me.code == [] && x in me.slots && me.slots[x].Counted? && Known(s.count, me.slots[x])
       case HandOver(t, x, u) => me.code == [] && x in me.slots && (t, x) !in s.shared && u != t && Accessible(s, u)
       case TakeOut(t, o, x) =>
         && me.code == [] && Accessible(s, Inside(o))
         && x in s.owners[Inside(o)].slots && (Inside(o), x) !in s.shared
       case Share(t, u, x) => me.code == [] && (u == t || u.Inside?) && Accessible(s, u) && x in s.owners[u].slots
       case Unshare(t, u, x) => me.code == [] && (u == t || u.Inside?) && Accessible(s, u) && !IsLent(s, u, x)
  }

  /** A thread that is not busy, or an object that still has references. */
  ghost predicate Accessible(s: State, u: Owner) {
    && u in s.owners && s.owners[u].code == []
    && (u.Inside? ==> u.host in s.count && s.count[u.host] >= 1)
  }

  /** The owner is a thread, or an object held by a slot other than the one to be assigned, or
      by a slot on the path. */
  ghost predicate Reaches(slots: map<Slot, Pointer>, x: Slot, path: seq<Lent>, u: Owner) {
    u.Inside? ==>
      || (exists b :: b in slots && b != x && slots[b] == Counted(u.host))
      || u.host in Targets(path)
  }

  ghost function Targets(path: seq<Lent>): set<Object> {
    set e | e in path :: e.target
  }

  ghost predicate Lends(owners: map<Owner, Local>, shared: set<(Owner, Slot)>, e: Lent) {
    && (e.owner, e.slot) in shared
    && e.owner in owners && e.slot in owners[e.owner].slots && owners[e.owner].slots[e.slot] == Counted(e.target)
  }

  /** Some operation under way relies on the slot. */
  ghost predicate IsLent(s: State, u: Owner, x: Slot) {
    exists t :: t in s.owners && s.owners[t].code != [] && LentFrom(s.owners[t], u, x)
  }

  ghost predicate LentFrom(l: Local, u: Owner, x: Slot) {
    exists e :: e in l.lent && e.owner == u && e.slot == x
  }

  predicate Known(count: map<Object, int>, p: Pointer) {
    p.Null? || p.target in count
  }

  ghost function Apply(s: State, a: Action): State
    requires Enabled(s, a)
  {
    var t := a.thread;
    var me := s.owners[t];
    match a
    case Declare(_, x) => s.(owners := s.owners[t := me.(slots := me.slots[x := Null])])
    case Begin(_, op) => s.(owners := s.owners[t := Local(me.slots, Code(op, me.slots), [])])
    case BeginSharedCopy(_, x, path, u, y) =>
      var p := s.owners[u].slots[y];
      var lent := if p.Null? then path else path + [Lent(u, y, p.target)];
      s.(owners := s.owners[t := Local(me.slots, CopyCode(x, p), lent)],
         touchedDeleted := s.touchedDeleted || IsGone(s, u) || (exists e :: e in path && IsGone(s, e.owner)))
    case Step(_) => Execute(s, t)
    case ReadUnique(_, x) => Touch(s, me.slots[x].target)
    case HandOver(_, x, u) => MoveSlot(s, t, x, u)
    case TakeOut(_, o, x) => MoveSlot(s, Inside(o), x, t)
    case Share(_, u, x) => s.(shared := s.shared + {(u, x)}, touchedDeleted := s.touchedDeleted || IsGone(s, u))
    case Unshare(_, u, x) => s.(shared := s.shared - {(u, x)}, touchedDeleted := s.touchedDeleted || IsGone(s, u))
  }

  predicate IsGone(s: State, u: Owner) {
    u.Inside? && u.host in s.deleted
  }

  ghost function MoveSlot(s: State, t: Owner, x: Slot, u: Owner): State
    requires t in s.owners && x in s.owners[t].slots && u in s.owners
  {
    var me, other := s.owners[t], s.owners[u];
    s.(owners := s.owners[t := me.(slots := me.slots - {x})][u := other.(slots := other.slots[x := me.slots[x]])],
       touchedDeleted := s.touchedDeleted || IsGone(s, t) || IsGone(s, u))
  }

  function Touch(s: State, o: Object): State {
    s.(touchedDeleted := s.touchedDeleted || o in s.deleted)
  }

  /** The member pointers of an object. */
  function Members(s: State, o: Object): map<Slot, Pointer> {
    if Inside(o) in s.owners then s.owners[Inside(o)].slots else map[]
  }

  /** The steps that release the members of an object one after another. */
  ghost function ReleaseCode(order: seq<Slot>): seq<Instruction> {
    if order == [] then [] else [FetchSub(order[0])] + ReleaseCode(order[1..])
  }

  /** Slots in the opposite of their order of declaration, which is that of their numbers. */
  ghost function Downward(slots: set<Slot>): (order: seq<Slot>)
    ensures forall x :: x in order <==> x in slots
  {
    if slots == {} then []
    else
      Largest(slots);
      var x :| x in slots && IsBound(slots, x);
      [x] + Downward(slots - {x})
  }

  ghost predicate IsBound(slots: set<Slot>, z: Slot) {
    forall y :: y in slots ==> y <= z
  }

  lemma {:induction false} Largest(slots: set<Slot>)
    requires slots != {}
    ensures exists x :: x in slots && IsBound(slots, x)
  {
    var x :| x in slots;
    if slots - {x} == {} {
      assert slots == {x};
      assert IsBound(slots, x);
    } else {
      Largest(slots - {x});
      var z :| z in slots - {x} && IsBound(slots - {x}, z);
      LargerOf(slots, x, z);
    }
  }

  lemma LargerOf(slots: set<Slot>, x: Slot, z: Slot)
    requires IsBound(slots - {x}, z)
    ensures IsBound(slots, if x <= z then z else x)
  {
    forall y | y in slots ensures y <= if x <= z then z else x {
      assert y != x ==> y in slots - {x};
    }
  }

  /** One instruction of thread `t`. The thread that deletes an object gets its members and
      releases them. */
  ghost function Execute(s: State, t: Owner): State
    requires Enabled(s, Step(t))
  {
    var Local(slots, code, lent) := s.owners[t];
    var i, rest := code[0], code[1..];
    var p := slots[i.slot];
    match i
    case FetchSub(a) =>
      if p.Null? then s.(owners := s.owners[t := Local(slots, rest, lent)])
      else
        var left := s.count[p.target] - 1;
        var next := if left == 0 then [Delete(a), Clear(a)] else [Clear(a)];
        Touch(s, p.target).(
          owners := s.owners[t := Local(slots[a := Uncounted(p.target)], next + rest, lent)],
          count := s.count[p.target := left],
          zeros := if left == 0 then s.zeros + multiset{p.target} else s.zeros,
          doomed := if left == 0 then s.doomed[p.target := t] else s.doomed)
    case Delete(a) =>
      if p.Null? then s.(owners := s.owners[t := Local(slots, rest, lent)])
      else
        var o := p.target;
        var members := Members(s, o);
        Touch(s, o).(
          owners := (s.owners - {Inside(o)})[t := Local(slots + members, ReleaseCode(Downward(members.Keys)) + rest, lent)],
          shared := (set e | e in s.shared && e.0 != Inside(o)),
          deleted := s.deleted + {o},
          doomed := s.doomed - {o})
    case Clear(a) => s.(owners := s.owners[t := Local(slots[a := Null], rest, lent)])
    case Store(a, v) => s.(owners := s.owners[t := Local(slots[a := v], rest, lent)])
    case FetchAdd(a) =>
      if p.Null? then s.(owners := s.owners[t := Local(slots, rest, lent)])
      else
        Touch(s, p.target).(
          owners := s.owners[t := Local(slots[a := Counted(p.target)], rest, lent)],
          count := s.count[p.target := s.count[p.target] + 1])
    case Steal(b, a) => s.(owners := s.owners[t := Local(slots[a := p][b := Null], rest, lent)])
    case Adopt(a, o) =>
      s.(owners := s.owners[t := Local(slots[a := Counted(o)], rest, lent)][Inside(o) := Local(map[], [], [])],
         count := s.count[o := 1])
  }

  // ---------------------------------------------------------------------------------------
  // Code that keeps the count
  // ---------------------------------------------------------------------------------------

  /** From these slots the code ends with every slot null or counted, having added a reference
      only to an object the thread itself holds or one that is kept for it. It speaks of the
      thread's own slots alone, so no other thread can disturb it. */
  ghost predicate Balanced(slots: map<Slot, Pointer>, kept: set<Object>, code: seq<Instruction>)
    decreases |code|
  {
    if code == [] then forall x :: x in slots ==> !slots[x].Uncounted?
    else
      var i, rest := code[0], code[1..];
      && i.slot in slots
      && var p := slots[i.slot];
         match i
         case FetchSub(a) => !p.Uncounted? && Balanced(slots[a := Null], kept, rest)
         case Delete(a) => false
         case Clear(a) => p.Uncounted? && Balanced(slots[a := Null], kept, rest)
         case Store(a, v) =>
           && p.Null? && !v.Counted?
           && (v.Uncounted? ==> Holds(slots, v.target) || v.target in kept)
           && Balanced(slots[a := v], kept, rest)
         case FetchAdd(a) =>
           && (p.Uncounted? ==> Holds(slots, p.target) || p.target in kept)
           && !p.Counted?
           && Balanced(if p.Null? then slots else slots[a := Counted(p.target)], kept, rest)
         case Steal(b, a) =>
           && a in slots && a != b && !p.Uncounted? && slots[a] == Raw(p)
           && Balanced(slots[a := p][b := Null], kept, rest)
         case Adopt(a, o) => p.Null? && Balanced(slots[a := Counted(o)], kept, rest)
  }

  ghost predicate Holds(slots: map<Slot, Pointer>, o: Object) {
    exists x :: x in slots && slots[x] == Counted(o)
  }

  /** A deletion is pending only at the head, for a pointer this thread has subtracted. */
  ghost predicate LocalOk(l: Local) {
    Balanced(l.slots, Kept(l), if Deleting(l) then l.code[1..] else l.code)
  }

  /** What the lenders of the current operation keep alive. */
  ghost function Kept(l: Local): set<Object> {
    Targets(l.lent)
  }

  ghost predicate Deleting(l: Local) {
    l.code != [] && l.code[0].Delete? && l.code[0].slot in l.slots && l.slots[l.code[0].slot].Uncounted?
  }

  ghost predicate Deletes(l: Local, o: Object) {
    Deleting(l) && l.slots[l.code[0].slot].target == o
  }

  /** The references held on `o`: the slots whose pointer is counted. */
  ghost function Holders(owners: map<Owner, Local>, o: Object): set<Slot> {
    set t, x | t in owners && x in owners[t].slots && owners[t].slots[x] == Counted(o) :: x
  }

  /** Every slot belongs to one owner. */
  ghost predicate SlotsOk(owners: map<Owner, Local>) {
    forall t, x :: t in owners && x in owners[t].slots ==> NowhereElse(owners, t, x)
  }

  ghost predicate NowhereElse(owners: map<Owner, Local>, t: Owner, x: Slot) {
    forall u :: u in owners && u != t ==> x !in owners[u].slots
  }

  /** Objects have members until they are deleted. */
  ghost predicate HomesOk(owners: map<Owner, Local>, count: map<Object, int>, deleted: set<Object>) {
    && (forall o :: Inside(o) in owners <==> o in count && o !in deleted)
    && forall o :: Inside(o) in owners ==> owners[Inside(o)].code == []
  }

  ghost predicate LocalsOk(owners: map<Owner, Local>) {
    forall t :: t in owners ==> LocalOk(owners[t])
  }

  ghost predicate AllKnown(owners: map<Owner, Local>, count: map<Object, int>) {
    forall t, x :: t in owners && x in owners[t].slots ==> Known(count, owners[t].slots[x])
  }

  /** The count of an object is the number of references held on it. */
  ghost predicate CountsOk(owners: map<Owner, Local>, count: map<Object, int>) {
    forall o :: o in count ==> count[o] == |Holders(owners, o)|
  }

  /** Each pending deletion is the doing of exactly one thread. */
  ghost predicate DoomedOk(owners: map<Owner, Local>, doomed: map<Object, Owner>) {
    && (forall o :: o in doomed ==> doomed[o] in owners)
    && forall t, o :: t in owners ==> (Deletes(owners[t], o) <==> o in doomed && doomed[o] == t)
  }

  ghost predicate Dead(count: map<Object, int>, o: Object) {
    o in count && count[o] == 0
  }

  /** An object is deleted, or about to be, exactly when its count is zero; zero was seen once. */
  ghost predicate DeathsOk(count: map<Object, int>, deleted: set<Object>,
                           zeros: multiset<Object>, doomed: map<Object, Owner>)
  {
    && (forall o :: Dead(count, o) <==> o in deleted || o in doomed)
    && (forall o :: !(o in deleted && o in doomed))
    && (forall o :: zeros[o] == if Dead(count, o) then 1 else 0)
  }

  predicate Writes(i: Instruction, x: Slot) {
    i.slot == x || (i.Steal? && i.to == x)
  }

  /** Shared slots are null or counted and not written by the code under way, and every
      operation under way can rely on what it has been lent. */
  ghost predicate SharingOk(owners: map<Owner, Local>, shared: set<(Owner, Slot)>) {
    && (forall t, x :: (t, x) in shared ==> t in owners && Untouched(owners[t], x))
    && (forall t :: t in owners && owners[t].code != [] ==> LentOk(owners, shared, owners[t]))
  }

  ghost predicate Untouched(l: Local, x: Slot) {
    x in l.slots && !l.slots[x].Uncounted? && LeavesAlone(l.code, x)
  }

  ghost predicate LeavesAlone(code: seq<Instruction>, x: Slot) {
    forall k :: 0 <= k < |code| ==> !Writes(code[k], x)
  }

  ghost predicate LentOk(owners: map<Owner, Local>, shared: set<(Owner, Slot)>, l: Local) {
    forall e :: e in l.lent ==> Lends(owners, shared, e) && Relies(l, e.owner)
  }

  /** An object that lends is held by a slot that the operation leaves alone, or by a lender. */
  ghost predicate Relies(l: Local, u: Owner) {
    u.Inside? ==> Anchored(l, u.host) || u.host in Kept(l)
  }

  ghost predicate Anchored(l: Local, o: Object) {
    exists b :: b in l.slots && l.slots[b] == Counted(o) && LeavesAlone(l.code, b)
  }

  ghost predicate Invariant(s: State) {
    Counting(s) && SharingOk(s.owners, s.shared)
  }

  ghost predicate Counting(s: State) {
    && LocalsOk(s.owners) && AllKnown(s.owners, s.count)
    && SlotsOk(s.owners) && HomesOk(s.owners, s.count, s.deleted)
    && CountsOk(s.owners, s.count)
    && DoomedOk(s.owners, s.doomed)
    && DeathsOk(s.count, s.deleted, s.zeros, s.doomed)
    && !s.touchedDeleted
  }

  // ---------------------------------------------------------------------------------------
  // The operations are balanced
  // ---------------------------------------------------------------------------------------

  /** From a state between operations, the code of every operation is balanced. */
  lemma OperationsAreBalanced(op: Operation, slots: map<Slot, Pointer>)
    requires Balanced(slots, {}, []) && Applicable(op, slots)
    ensures Balanced(slots, {}, Code(op, slots))
  {
    var a := op.slot;
    var s1 := slots[a := Null];
    var c := Code(op, slots);
    match op
    case Destroy(_) =>
      assert Balanced(s1, {}, []) && c[1..] == [];
    case Wrap(_, p) =>
      assert Balanced(s1[a := Counted(p)], {}, []);
      assert c[1..] == [Adopt(a, p)] && c[1..][1..] == [];
    case Copy(_, b) =>
      if b == a {
        SelfCopyIsBalancedIff(slots, a);
      } else {
        CopyIsBalanced(slots, {}, a, slots[b], []);
        assert c == CopyCode(a, slots[b]) + [];
      }
    case Move(_, b) =>
      if b == a {
        assert Balanced(s1, {}, []) && c[1..] == [];
      } else {
        MoveIsBalanced(slots, a, b);
      }
    case ConvertingMove(_, b) =>
      var s3 := slots[a := slots[b]];
      var c4 := [FetchSub(b)];
      assert Balanced(s3[b := Null], {}, []) && c4[1..] == [];
      assert Balanced(s3, {}, c4);
      CopyIsBalanced(slots, {}, a, slots[b], c4);
  }

  lemma MoveIsBalanced(slots: map<Slot, Pointer>, a: Slot, b: Slot)
    requires Balanced(slots, {}, []) && a in slots && b in slots && a != b
    ensures Balanced(slots, {}, [FetchSub(a), Store(a, Raw(slots[b])), Steal(b, a)])
  {
    var c := [FetchSub(a), Store(a, Raw(slots[b])), Steal(b, a)];
    var v := Raw(slots[b]);
    var s1 := slots[a := Null];
    var s2 := s1[a := v];
    assert Balanced(s2[a := s2[b]][b := Null], {}, []);
    assert c[1..] == [Store(a, v), Steal(b, a)] && c[1..][1..] == [Steal(b, a)] && c[1..][1..][1..] == [];
    assert Balanced(s2, {}, [Steal(b, a)]);
    assert s1[b] == slots[b];
    assert Balanced(s1, {}, c[1..]);
  }

  /** Self-assignment is balanced exactly when another slot of the thread keeps the object. */
  lemma SelfCopyIsBalancedIff(slots: map<Slot, Pointer>, a: Slot)
    requires Balanced(slots, {}, []) && a in slots
    ensures Balanced(slots, {}, CopyCode(a, slots[a])) <==> SafeSelfCopy(slots, a)
  {
    var v := Raw(slots[a]);
    var s1 := slots[a := Null];
    var s2 := s1[a := v];
    var c1 := CopyCode(a, slots[a]);
    assert c1[1..] == [Store(a, v), FetchAdd(a)] && c1[1..][1..] == [FetchAdd(a)] && c1[1..][1..][1..] == [];
    assert Balanced(slots, {}, c1) <==> Balanced(s1, {}, c1[1..]);
    if v.Null? {
      assert s2 == slots && s1 == slots;
      assert Balanced(slots, {}, [FetchAdd(a)]);
    } else {
      assert s2[a := Counted(v.target)] == slots;
      assert Balanced(s2, {}, [FetchAdd(a)]) <==> Holds(s2, v.target);
      assert Balanced(s1, {}, c1[1..]) <==> Holds(s1, v.target) && Balanced(s2, {}, [FetchAdd(a)]);
      if SafeSelfCopy(slots, a) {
        var b :| b in slots && b != a && slots[b] == slots[a];
        assert s1[b] == s2[b] == Counted(v.target);
      }
      if Holds(s1, v.target) {
        var b :| b in s1 && s1[b] == Counted(v.target);
        assert b != a && slots[b] == slots[a];
      }
    }
  }

  lemma SubIsBalanced(slots: map<Slot, Pointer>, kept: set<Object>, a: Slot, rest: seq<Instruction>)
    requires a in slots && !slots[a].Uncounted? && Balanced(slots[a := Null], kept, rest)
    ensures Balanced(slots, kept, [FetchSub(a)] + rest)
  {
    assert ([FetchSub(a)] + rest)[1..] == rest;
  }

  lemma StoreIsBalanced(slots: map<Slot, Pointer>, kept: set<Object>, a: Slot, v: Pointer, rest: seq<Instruction>)
    requires a in slots && slots[a].Null? && !v.Counted? && Balanced(slots[a := v], kept, rest)
    requires v.Uncounted? ==> Holds(slots, v.target) || v.target in kept
    ensures Balanced(slots, kept, [Store(a, v)] + rest)
  {
    assert ([Store(a, v)] + rest)[1..] == rest;
  }

  lemma AddIsBalanced(slots: map<Slot, Pointer>, kept: set<Object>, a: Slot, p: Pointer, rest: seq<Instruction>)
    requires a in slots && slots[a] == Raw(p) && !p.Uncounted? && Balanced(slots[a := p], kept, rest)
    requires p.Null? || Holds(slots, p.target) || p.target in kept
    ensures Balanced(slots, kept, [FetchAdd(a)] + rest)
  {
    assert ([FetchAdd(a)] + rest)[1..] == rest;
    assert p.Null? ==> slots[a := p] == slots;
  }

  /** Copying what another slot of the thread, or a lender, holds meanwhile. */
  lemma CopyIsBalanced(slots: map<Slot, Pointer>, kept: set<Object>, a: Slot, p: Pointer, rest: seq<Instruction>)
    requires Balanced(slots, kept, []) && a in slots && !p.Uncounted?
    requires p.Null? || p.target in kept || exists b :: b in slots && b != a && slots[b] == p
    requires Balanced(slots[a := p], kept, rest)
    ensures Balanced(slots, kept, CopyCode(a, p) + rest)
  {
    var v := Raw(p);
    var s1 := slots[a := Null];
    var s2 := s1[a := v];
    if !p.Null? && p.target !in kept {
      var b :| b in slots && b != a && slots[b] == p;
      assert s1[b] == p && s2[b] == p;
    }
    assert s2[a := p] == slots[a := p];
    AddIsBalanced(s2, kept, a, p, rest);
    StoreIsBalanced(s1, kept, a, v, [FetchAdd(a)] + rest);
    SubIsBalanced(slots, kept, a, [Store(a, v)] + ([FetchAdd(a)] + rest));
    assert CopyCode(a, p) + rest == [FetchSub(a)] + ([Store(a, v)] + ([FetchAdd(a)] + rest));
  }

  /** Members that are about to be released, added to the slots. */
  function Nulled(slots: map<Slot, Pointer>, order: seq<Slot>): map<Slot, Pointer> {
    map x | x in slots :: if x in order then Null else slots[x]
  }

  lemma {:induction false} ReleasesAreBalanced(slots: map<Slot, Pointer>, kept: set<Object>, order: seq<Slot>,
                                               code: seq<Instruction>)
    requires forall x :: x in order ==> x in slots && !slots[x].Uncounted?
    requires Balanced(Nulled(slots, order), kept, code)
    ensures Balanced(slots, kept, ReleaseCode(order) + code)
    decreases |order|
  {
    if order == [] {
      assert Nulled(slots, order) == slots && ReleaseCode(order) + code == code;
    } else {
      var x, rest := order[0], order[1..];
      assert order == [x] + rest;
      assert Nulled(slots[x := Null], rest) == Nulled(slots, order);
      ReleasesAreBalanced(slots[x := Null], kept, rest, code);
      SubIsBalanced(slots, kept, x, ReleaseCode(rest) + code);
      assert ReleaseCode(order) + code == [FetchSub(x)] + (ReleaseCode(rest) + code);
    }
  }

  /** Code does not mind more slots that are null. */
  lemma {:induction false} MoreNulls(slots: map<Slot, Pointer>, nulls: map<Slot, Pointer>, kept: set<Object>,
                                     code: seq<Instruction>)
    requires nulls.Keys !! slots.Keys && forall x :: x in nulls ==> nulls[x].Null?
    requires Balanced(slots, kept, code)
    ensures Balanced(slots + nulls, kept, code)
    decreases |code|
  {
    if code != [] {
      var i, rest := code[0], code[1..];
      var p := slots[i.slot];
      forall o | Holds(slots, o) ensures Holds(slots + nulls, o) {
        var x :| x in slots && slots[x] == Counted(o);
        assert (slots + nulls)[x] == Counted(o);
      }
      match i
      case FetchSub(a) => SlotOfMore(slots, nulls, a, Null); MoreNulls(slots[a := Null], nulls, kept, rest);
      case Delete(a) =>
      case Clear(a) => SlotOfMore(slots, nulls, a, Null); MoreNulls(slots[a := Null], nulls, kept, rest);
      case Store(a, v) => SlotOfMore(slots, nulls, a, v); MoreNulls(slots[a := v], nulls, kept, rest);
      case FetchAdd(a) =>
        if p.Null? {
          MoreNulls(slots, nulls, kept, rest);
        } else {
          SlotOfMore(slots, nulls, a, Counted(p.target));
          MoreNulls(slots[a := Counted(p.target)], nulls, kept, rest);
        }
      case Steal(b, a) =>
        SlotOfMore(slots, nulls, a, p);
        SlotOfMore(slots[a := p], nulls, b, Null);
        MoreNulls(slots[a := p][b := Null], nulls, kept, rest);
      case Adopt(a, o) => SlotOfMore(slots, nulls, a, Counted(o)); MoreNulls(slots[a := Counted(o)], nulls, kept, rest);
    }
  }

  lemma SlotOfMore(slots: map<Slot, Pointer>, nulls: map<Slot, Pointer>, a: Slot, p: Pointer)
    requires a in slots && nulls.Keys !! slots.Keys
    ensures (slots + nulls)[a := p] == slots[a := p] + nulls
    ensures (slots + nulls)[a] == slots[a] && slots[a := p].Keys == slots.Keys
  {
  }

  // ---------------------------------------------------------------------------------------
  // One step keeps the invariant
  // ---------------------------------------------------------------------------------------

  ghost function One(b: bool): nat {
    if b then 1 else 0
  }

  predicate Has(slots: map<Slot, Pointer>, x: Slot, o: Object) {
    x in slots && slots[x] == Counted(o)
  }

  /** Changing or adding one slot changes only the holders of its old and new target. */
  lemma SlotDiffers(owners: map<Owner, Local>, t: Owner, x: Slot, l: Local, o: Object)
    requires t in owners && NowhereElse(owners, t, x)
    requires forall y :: y != x ==> Has(l.slots, y, o) == Has(owners[t].slots, y, o)
    ensures |Holders(owners[t := l], o)| + One(Has(owners[t].slots, x, o))
            == |Holders(owners, o)| + One(Has(l.slots, x, o))
  {
    var H, H' := Holders(owners, o), Holders(owners[t := l], o);
    forall y | y != x ensures y in H <==> y in H' {
      HeldBySome(owners, y, o);
      HeldBySome(owners[t := l], y, o);
      assert forall u :: u in owners && u != t ==> owners[t := l][u] == owners[u];
    }
    HeldHere(owners, t, x, o);
    HeldHere(owners[t := l], t, x, o);
    DifferAt(H, H', x);
  }

  ghost predicate HeldSomewhere(owners: map<Owner, Local>, x: Slot, o: Object) {
    exists u :: u in owners && Has(owners[u].slots, x, o)
  }

  lemma HeldBySome(owners: map<Owner, Local>, x: Slot, o: Object)
    ensures x in Holders(owners, o) <==> HeldSomewhere(owners, x, o)
  {
    if x in Holders(owners, o) {
      var u :| u in owners && x in owners[u].slots && owners[u].slots[x] == Counted(o);
      assert Has(owners[u].slots, x, o);
    }
  }

  lemma HeldHere(owners: map<Owner, Local>, t: Owner, x: Slot, o: Object)
    requires t in owners && NowhereElse(owners, t, x)
    ensures x in Holders(owners, o) <==> Has(owners[t].slots, x, o)
  {
    HeldBySome(owners, x, o);
  }

  lemma DifferAt<T>(s: set<T>, s': set<T>, e: T)
    requires forall f :: f != e ==> (f in s <==> f in s')
    ensures |s'| + One(e in s) == |s| + One(e in s')
  {
    assert s - {e} == s' - {e};
    Without(s, e);
    Without(s', e);
  }

  lemma Without<T>(s: set<T>, e: T)
    ensures |s| == |s - {e}| + One(e in s)
  {
    if e in s {
      assert s == (s - {e}) + {e};
    } else {
      assert s == s - {e};
    }
  }

  /** Whoever holds a counted pointer keeps the object alive. */
  lemma HolderKeepsAlive(s: State, t: Owner, x: Slot)
    requires Counting(s) && t in s.owners && x in s.owners[t].slots && s.owners[t].slots[x].Counted?
    ensures IsAlive(s, s.owners[t].slots[x].target)
  {
    var o := s.owners[t].slots[x].target;
    assert Known(s.count, s.owners[t].slots[x]);
    HeldBySome(s.owners, x, o);
    assert Has(s.owners[t].slots, x, o) && x in Holders(s.owners, o);
    assert Holders(s.owners, o) != {};
    assert !Dead(s.count, o);
  }

  ghost predicate IsAlive(s: State, o: Object) {
    o in s.count && s.count[o] >= 1 && o !in s.deleted && o !in s.doomed
  }

  /** So does a lender. */
  lemma KeptIsAlive(s: State, t: Owner, o: Object)
    requires Invariant(s) && t in s.owners && s.owners[t].code != []
    requires Holds(s.owners[t].slots, o) || o in Kept(s.owners[t])
    ensures IsAlive(s, o)
  {
    if Holds(s.owners[t].slots, o) {
      var x :| x in s.owners[t].slots && s.owners[t].slots[x] == Counted(o);
      HolderKeepsAlive(s, t, x);
    } else {
      var e :| e in s.owners[t].lent && e.target == o;
      assert Lends(s.owners, s.shared, e);
      HolderKeepsAlive(s, e.owner, e.slot);
    }
  }

  // Each part of the invariant when one thread changes.

  lemma LocalsFrame(owners: map<Owner, Local>, t: Owner, l: Local)
    requires LocalsOk(owners) && LocalOk(l)
    ensures LocalsOk(owners[t := l])
  {
  }

  lemma KnownFrame(owners: map<Owner, Local>, count: map<Object, int>, t: Owner, l: Local, count': map<Object, int>)
    requires AllKnown(owners, count) && count.Keys <= count'.Keys
    requires forall x :: x in l.slots ==> Known(count', l.slots[x])
    ensures AllKnown(owners[t := l], count')
  {
    var owners' := owners[t := l];
    forall u, x | u in owners' && x in owners'[u].slots ensures Known(count', owners'[u].slots[x]) {
      assert u != t ==> Known(count, owners[u].slots[x]);
    }
  }

  lemma KnownAfter(owners: map<Owner, Local>, count: map<Object, int>, t: Owner, l: Local,
                   count': map<Object, int>, a: Slot, p: Pointer)
    requires AllKnown(owners, count) && count.Keys <= count'.Keys && t in owners
    requires l.slots == owners[t].slots[a := p] && Known(count', p)
    ensures AllKnown(owners[t := l], count')
  {
    forall x | x in l.slots ensures Known(count', l.slots[x]) {
      assert x != a ==> Known(count, owners[t].slots[x]);
    }
    KnownFrame(owners, count, t, l, count');
  }

  lemma DoomedQuiet(owners: map<Owner, Local>, doomed: map<Object, Owner>, t: Owner, l: Local)
    requires DoomedOk(owners, doomed) && t in owners && !Deleting(owners[t]) && !Deleting(l)
    ensures DoomedOk(owners[t := l], doomed)
  {
    forall u, o | u in owners ensures Deletes(owners[t := l][u], o) <==> o in doomed && doomed[o] == u {
      assert !Deletes(owners[t], o);
    }
  }

  lemma DoomedBegins(owners: map<Owner, Local>, doomed: map<Object, Owner>, t: Owner, l: Local, o: Object)
    requires DoomedOk(owners, doomed) && t in owners && !Deleting(owners[t]) && Deletes(l, o) && o !in doomed
    ensures DoomedOk(owners[t := l], doomed[o := t])
  {
    var doomed' := doomed[o := t];
    forall u, q | u in owners ensures Deletes(owners[t := l][u], q) <==> q in doomed' && doomed'[q] == u {
      assert !Deletes(owners[t], q);
    }
  }

  lemma DoomedEnds(owners: map<Owner, Local>, doomed: map<Object, Owner>, t: Owner, l: Local, o: Object)
    requires DoomedOk(owners, doomed) && t in owners && Deletes(owners[t], o) && !Deleting(l)
    ensures o in doomed && DoomedOk(owners[t := l], doomed - {o})
  {
    var doomed' := doomed - {o};
    forall u, q | u in owners ensures Deletes(owners[t := l][u], q) <==> q in doomed' && doomed'[q] == u {
      assert Deletes(owners[t], q) <==> q == o;
    }
  }

  lemma SameSlots(owners: map<Owner, Local>, t: Owner, l: Local, o: Object)
    requires t in owners && l.slots == owners[t].slots
    ensures Holders(owners[t := l], o) == Holders(owners, o)
  {
    var owners' := owners[t := l];
    forall u, x | u in owners && Has(owners[u].slots, x, o) ensures HeldSomewhere(owners', x, o) {
      assert Has(owners'[u].slots, x, o);
    }
    forall u, x | u in owners' && Has(owners'[u].slots, x, o) ensures HeldSomewhere(owners, x, o) {
      assert Has(owners[u].slots, x, o);
    }
    SameHolders(owners, owners', o);
  }

  lemma SameHolders(owners: map<Owner, Local>, owners': map<Owner, Local>, o: Object)
    requires forall u, x :: u in owners && Has(owners[u].slots, x, o) ==> HeldSomewhere(owners', x, o)
    requires forall u, x :: u in owners' && Has(owners'[u].slots, x, o) ==> HeldSomewhere(owners, x, o)
    ensures Holders(owners', o) == Holders(owners, o)
  {
    forall x ensures x in Holders(owners', o) <==> x in Holders(owners, o) {
      HeldBySome(owners, x, o);
      HeldBySome(owners', x, o);
      if HeldSomewhere(owners, x, o) {
        var u :| u in owners && Has(owners[u].slots, x, o);
      }
      if HeldSomewhere(owners', x, o) {
        var u :| u in owners' && Has(owners'[u].slots, x, o);
      }
    }
  }

  lemma SlotsFrame(owners: map<Owner, Local>, t: Owner, l: Local)
    requires SlotsOk(owners) && t in owners && l.slots.Keys == owners[t].slots.Keys
    ensures SlotsOk(owners[t := l])
  {
    var owners' := owners[t := l];
    forall u, x | u in owners' && x in owners'[u].slots ensures NowhereElse(owners', u, x) {
      assert NowhereElse(owners, u, x);
    }
  }

  lemma CountsFrame(owners: map<Owner, Local>, count: map<Object, int>, t: Owner, l: Local)
    requires CountsOk(owners, count) && t in owners && l.slots == owners[t].slots
    ensures CountsOk(owners[t := l], count)
  {
    forall q ensures Holders(owners[t := l], q) == Holders(owners, q) {
      SameSlots(owners, t, l, q);
    }
  }

  /** A slot that was not counted gets a value that is not. */
  lemma CountsAfterStore(owners: map<Owner, Local>, count: map<Object, int>, t: Owner, l: Local, a: Slot, p: Pointer)
    requires CountsOk(owners, count) && SlotsOk(owners) && t in owners && a in owners[t].slots
    requires !owners[t].slots[a].Counted? && !p.Counted? && l.slots == owners[t].slots[a := p]
    ensures CountsOk(owners[t := l], count)
  {
    assert NowhereElse(owners, t, a);
    forall q ensures |Holders(owners[t := l], q)| == |Holders(owners, q)| {
      SlotDiffers(owners, t, a, l, q);
    }
  }

  lemma CountsAfterSub(owners: map<Owner, Local>, count: map<Object, int>, t: Owner, l: Local, a: Slot, o: Object)
    requires CountsOk(owners, count) && SlotsOk(owners) && t in owners && a in owners[t].slots
    requires owners[t].slots[a] == Counted(o) && o in count && l.slots == owners[t].slots[a := Uncounted(o)]
    ensures CountsOk(owners[t := l], count[o := count[o] - 1])
  {
    assert NowhereElse(owners, t, a);
    forall q ensures |Holders(owners[t := l], q)| == |Holders(owners, q)| - One(q == o) {
      SlotDiffers(owners, t, a, l, q);
    }
  }

  lemma CountsAfterAdd(owners: map<Owner, Local>, count: map<Object, int>, t: Owner, l: Local, a: Slot, o: Object,
                       n: int)
    requires CountsOk(owners, count) && SlotsOk(owners) && t in owners && a in owners[t].slots
    requires !owners[t].slots[a].Counted? && l.slots == owners[t].slots[a := Counted(o)]
    requires n == |Holders(owners, o)| + 1
    ensures CountsOk(owners[t := l], count[o := n])
  {
    assert NowhereElse(owners, t, a);
    forall q ensures |Holders(owners[t := l], q)| == |Holders(owners, q)| + One(q == o) {
      SlotDiffers(owners, t, a, l, q);
    }
  }

  lemma CountsAfterSteal(owners: map<Owner, Local>, count: map<Object, int>, t: Owner, l: Local, a: Slot, b: Slot)
    requires CountsOk(owners, count) && SlotsOk(owners) && t in owners && a in owners[t].slots && b in owners[t].slots && a != b
    requires !owners[t].slots[a].Counted? && l.slots == owners[t].slots[a := owners[t].slots[b]][b := Null]
    ensures CountsOk(owners[t := l], count)
  {
    var mid := l.(slots := owners[t].slots[a := owners[t].slots[b]]);
    forall q ensures |Holders(owners[t := l], q)| == |Holders(owners, q)| {
      SlotDiffers(owners, t, a, mid, q);
      assert NowhereElse(owners, t, a) && NowhereElse(owners, t, b);
      SlotDiffers(owners[t := mid], t, b, l, q);
      assert owners[t := mid][t := l] == owners[t := l];
    }
  }

  lemma DeathsAfterCount(count: map<Object, int>, deleted: set<Object>, zeros: multiset<Object>,
                         doomed: map<Object, Owner>, o: Object, n: int)
    requires DeathsOk(count, deleted, zeros, doomed) && !Dead(count, o) && n != 0
    ensures DeathsOk(count[o := n], deleted, zeros, doomed)
  {
    forall q ensures Dead(count[o := n], q) == Dead(count, q) {
    }
  }

  lemma DeathsAfterZero(count: map<Object, int>, deleted: set<Object>, zeros: multiset<Object>,
                        doomed: map<Object, Owner>, o: Object, t: Owner)
    requires DeathsOk(count, deleted, zeros, doomed) && !Dead(count, o)
    ensures DeathsOk(count[o := 0], deleted, zeros + multiset{o}, doomed[o := t])
  {
    var zeros' := zeros + multiset{o};
    forall q ensures Dead(count[o := 0], q) == (q == o || Dead(count, q)) && zeros'[q] == zeros[q] + One(q == o) {
    }
  }

  lemma DeathsAfterDelete(count: map<Object, int>, deleted: set<Object>, zeros: multiset<Object>,
                          doomed: map<Object, Owner>, o: Object)
    requires DeathsOk(count, deleted, zeros, doomed) && o in doomed
    ensures DeathsOk(count, deleted + {o}, zeros, doomed - {o})
  {
    forall q ensures q in deleted + {o} || q in doomed - {o} <==> q in deleted || q in doomed {
    }
  }

  // Each instruction.

  /** A change of the code alone. */
  lemma CodeChange(s: State, t: Owner, l: Local)
    requires Counting(s) && t.Thread? && t in s.owners && !Deleting(s.owners[t])
    requires l.slots == s.owners[t].slots && LocalOk(l) && !Deleting(l)
    ensures Counting(s.(owners := s.owners[t := l]))
  {
    LocalsFrame(s.owners, t, l);
    SlotsFrame(s.owners, t, l);
    KnownFrame(s.owners, s.count, t, l, s.count);
    CountsFrame(s.owners, s.count, t, l);
    DoomedQuiet(s.owners, s.doomed, t, l);
  }

  /** A plain store to a slot that is null or not counted. */
  lemma StoreChange(s: State, t: Owner, a: Slot, p: Pointer, l: Local)
    requires Counting(s) && t.Thread? && t in s.owners && !Deleting(s.owners[t]) && a in s.owners[t].slots
    requires !s.owners[t].slots[a].Counted? && !p.Counted? && Known(s.count, p)
    requires l.slots == s.owners[t].slots[a := p] && LocalOk(l) && !Deleting(l)
    ensures Counting(s.(owners := s.owners[t := l]))
  {
    LocalsFrame(s.owners, t, l);
    SlotsFrame(s.owners, t, l);
    KnownAfter(s.owners, s.count, t, l, s.count, a, p);
    CountsAfterStore(s.owners, s.count, t, l, a, p);
    DoomedQuiet(s.owners, s.doomed, t, l);
  }

  /** What the code becomes after a fetch_sub is still in order, deletion or not. */
  lemma CodeAfterSub(slots: map<Slot, Pointer>, a: Slot, rest: seq<Instruction>, o: Object, lent: seq<Lent>)
    requires a in slots && Balanced(slots[a := Null], Kept(Local(slots, rest, lent)), rest)
    ensures LocalOk(Local(slots[a := Uncounted(o)], [Delete(a), Clear(a)] + rest, lent))
    ensures LocalOk(Local(slots[a := Uncounted(o)], [Clear(a)] + rest, lent))
  {
    var slots' := slots[a := Uncounted(o)];
    var clear, delete := [Clear(a)] + rest, [Delete(a), Clear(a)] + rest;
    assert slots'[a := Null] == slots[a := Null];
    assert clear[1..] == rest && delete[1..] == clear;
  }

  lemma HomesFrame(owners: map<Owner, Local>, count: map<Object, int>, deleted: set<Object>, t: Owner, l: Local,
                   count': map<Object, int>)
    requires HomesOk(owners, count, deleted) && t.Thread? && t in owners && count'.Keys == count.Keys
    ensures HomesOk(owners[t := l], count', deleted)
  {
    assert forall o :: o in count' <==> o in count'.Keys;
  }

  /** A counted slot becomes uncounted, and the count of its target falls. */
  lemma SubbedFrom(owners: map<Owner, Local>, count: map<Object, int>, t: Owner, a: Slot, o: Object, l: Local)
    requires LocalsOk(owners) && AllKnown(owners, count) && CountsOk(owners, count) && SlotsOk(owners)
    requires t in owners && a in owners[t].slots && owners[t].slots[a] == Counted(o) && o in count
    requires l.slots == owners[t].slots[a := Uncounted(o)] && LocalOk(l)
    ensures var owners', count' := owners[t := l], count[o := count[o] - 1];
            LocalsOk(owners') && AllKnown(owners', count') && CountsOk(owners', count') && SlotsOk(owners')
  {
    LocalsFrame(owners, t, l);
    SlotsFrame(owners, t, l);
    KnownAfter(owners, count, t, l, count[o := count[o] - 1], a, Uncounted(o));
    CountsAfterSub(owners, count, t, l, a, o);
  }

  /** fetch_sub that gives up the last reference. */
  lemma LastCounts(s: State, t: Owner, a: Slot, o: Object, l: Local)
    requires Counting(s) && t.Thread? && t in s.owners && a in s.owners[t].slots && s.owners[t].slots[a] == Counted(o)
    requires !Deleting(s.owners[t]) && l.slots == s.owners[t].slots[a := Uncounted(o)] && LocalOk(l) && Deletes(l, o)
    requires IsAlive(s, o) && s.count[o] == 1
    ensures Counting(s.(owners := s.owners[t := l], count := s.count[o := 0], zeros := s.zeros + multiset{o},
                        doomed := s.doomed[o := t]))
  {
    SubbedFrom(s.owners, s.count, t, a, o, l);
    HomesFrame(s.owners, s.count, s.deleted, t, l, s.count[o := 0]);
    DoomedBegins(s.owners, s.doomed, t, l, o);
    DeathsAfterZero(s.count, s.deleted, s.zeros, s.doomed, o, t);
  }

  lemma LastState(s: State, t: Owner, a: Slot, o: Object, l: Local)
    requires Enabled(s, Step(t)) && s.owners[t].code[0] == FetchSub(a) && s.owners[t].slots[a] == Counted(o)
    requires o !in s.deleted && s.count[o] == 1
    requires l == Local(s.owners[t].slots[a := Uncounted(o)], [Delete(a), Clear(a)] + s.owners[t].code[1..], s.owners[t].lent)
    ensures Execute(s, t) == s.(owners := s.owners[t := l], count := s.count[o := 0], zeros := s.zeros + multiset{o},
                                doomed := s.doomed[o := t])
  {
  }

  /** fetch_sub that leaves other references. */
  lemma MoreCounts(s: State, t: Owner, a: Slot, o: Object, l: Local)
    requires Counting(s) && t.Thread? && t in s.owners && a in s.owners[t].slots && s.owners[t].slots[a] == Counted(o)
    requires !Deleting(s.owners[t]) && l.slots == s.owners[t].slots[a := Uncounted(o)] && LocalOk(l) && !Deleting(l)
    requires IsAlive(s, o) && s.count[o] > 1
    ensures Counting(s.(owners := s.owners[t := l], count := s.count[o := s.count[o] - 1]))
  {
    SubbedFrom(s.owners, s.count, t, a, o, l);
    HomesFrame(s.owners, s.count, s.deleted, t, l, s.count[o := s.count[o] - 1]);
    DoomedQuiet(s.owners, s.doomed, t, l);
    assert !Dead(s.count, o);
    DeathsAfterCount(s.count, s.deleted, s.zeros, s.doomed, o, s.count[o] - 1);
  }

  lemma MoreState(s: State, t: Owner, a: Slot, o: Object, l: Local)
    requires Enabled(s, Step(t)) && s.owners[t].code[0] == FetchSub(a) && s.owners[t].slots[a] == Counted(o)
    requires o !in s.deleted && s.count[o] > 1
    requires l == Local(s.owners[t].slots[a := Uncounted(o)], [Clear(a)] + s.owners[t].code[1..], s.owners[t].lent)
    ensures Execute(s, t) == s.(owners := s.owners[t := l], count := s.count[o := s.count[o] - 1])
  {
  }

  lemma SubIsLocalOk(l: Local, a: Slot, o: Object)
    requires LocalOk(l) && l.code != [] && l.code[0] == FetchSub(a) && a in l.slots && l.slots[a] == Counted(o)
    ensures !Deleting(l)
    ensures var l' := Local(l.slots[a := Uncounted(o)], [Clear(a)] + l.code[1..], l.lent); LocalOk(l') && !Deleting(l')
    ensures var l' := Local(l.slots[a := Uncounted(o)], [Delete(a), Clear(a)] + l.code[1..], l.lent);
            LocalOk(l') && Deletes(l', o)
  {
    CodeAfterSub(l.slots, a, l.code[1..], o, l.lent);
  }

  lemma FetchSubCounted(s: State, t: Owner, a: Slot, o: Object)
    requires Counting(s) && Enabled(s, Step(t)) && s.owners[t].code[0] == FetchSub(a)
    requires s.owners[t].slots[a] == Counted(o) && IsAlive(s, o)
    ensures Counting(Execute(s, t))
  {
    var Local(slots, code, lent) := s.owners[t];
    SubIsLocalOk(s.owners[t], a, o);
    if s.count[o] == 1 {
      var l := Local(slots[a := Uncounted(o)], [Delete(a), Clear(a)] + code[1..], lent);
      LastCounts(s, t, a, o, l);
      LastState(s, t, a, o, l);
    } else {
      var l := Local(slots[a := Uncounted(o)], [Clear(a)] + code[1..], lent);
      MoreCounts(s, t, a, o, l);
      MoreState(s, t, a, o, l);
    }
  }

  lemma FetchSubKeeps(s: State, t: Owner)
    requires Counting(s) && Enabled(s, Step(t)) && s.owners[t].code[0].FetchSub?
    ensures Counting(Execute(s, t))
  {
    var Local(slots, code, lent) := s.owners[t];
    var a := code[0].slot;
    assert LocalOk(s.owners[t]);
    if slots[a].Null? {
      assert slots[a := Null] == slots;
      var l := Local(slots, code[1..], lent);
      BalancedIsLocalOk(l);
      CodeChange(s, t, l);
    } else {
      HolderKeepsAlive(s, t, a);
      FetchSubCounted(s, t, a, slots[a].target);
    }
  }

  lemma BalancedIsLocalOk(l: Local)
    requires Balanced(l.slots, Kept(l), l.code)
    ensures LocalOk(l) && !Deleting(l)
  {
  }

  /** The owners after a deletion: the thread has got the members. */
  ghost predicate Merged(owners: map<Owner, Local>, owners': map<Owner, Local>, t: Owner, o: Object, l: Local) {
    && t.Thread? && t in owners && Inside(o) in owners
    && owners' == (owners - {Inside(o)})[t := l]
    && l.slots == owners[t].slots + owners[Inside(o)].slots
  }

  lemma MergedSlots(owners: map<Owner, Local>, owners': map<Owner, Local>, t: Owner, o: Object, l: Local)
    requires SlotsOk(owners) && Merged(owners, owners', t, o, l)
    ensures SlotsOk(owners')
    ensures owners[t].slots.Keys !! owners[Inside(o)].slots.Keys
  {
    forall u, x | u in owners' && x in owners'[u].slots ensures NowhereElse(owners', u, x) {
      if u == t {
        assert if x in owners[t].slots then NowhereElse(owners, t, x) else NowhereElse(owners, Inside(o), x);
      } else {
        assert NowhereElse(owners, u, x);
      }
    }
    forall x | x in owners[t].slots ensures x !in owners[Inside(o)].slots {
      assert NowhereElse(owners, t, x);
    }
  }

  lemma MergedHolders(owners: map<Owner, Local>, owners': map<Owner, Local>, t: Owner, o: Object, l: Local, q: Object)
    requires SlotsOk(owners) && Merged(owners, owners', t, o, l)
    ensures Holders(owners', q) == Holders(owners, q)
  {
    MergedSlots(owners, owners', t, o, l);
    forall x ensures x in Holders(owners', q) <==> x in Holders(owners, q) {
      HeldBySome(owners, x, q);
      HeldBySome(owners', x, q);
      if u :| u in owners && Has(owners[u].slots, x, q) {
        assert Has(owners'[if u == Inside(o) then t else u].slots, x, q);
      }
      if u :| u in owners' && Has(owners'[u].slots, x, q) {
        assert Has(owners[if u == t && x in owners[Inside(o)].slots then Inside(o) else u].slots, x, q);
      }
    }
  }

  /** The code of the thread that has got the members. */
  lemma MembersToRelease(slots: map<Slot, Pointer>, members: map<Slot, Pointer>, kept: set<Object>,
                         code: seq<Instruction>)
    requires Balanced(slots, kept, code) && members.Keys !! slots.Keys
    requires forall x :: x in members ==> !members[x].Uncounted?
    ensures Balanced(slots + members, kept, ReleaseCode(Downward(members.Keys)) + code)
  {
    var order := Downward(members.Keys);
    var nulls := map x | x in members :: Null;
    MoreNulls(slots, nulls, kept, code);
    assert Nulled(slots + members, order) == slots + nulls;
    ReleasesAreBalanced(slots + members, kept, order, code);
  }

  lemma DoomedMerged(owners: map<Owner, Local>, owners': map<Owner, Local>, doomed: map<Object, Owner>,
                     t: Owner, o: Object, l: Local)
    requires DoomedOk(owners, doomed) && Merged(owners, owners', t, o, l) && Deletes(owners[t], o) && !Deleting(l)
    requires owners[Inside(o)].code == []
    ensures o in doomed && DoomedOk(owners', doomed - {o})
  {
    var doomed' := doomed - {o};
    forall q | q in doomed' ensures doomed'[q] in owners' {
      assert !Deletes(owners[Inside(o)], q);
    }
    forall u, q | u in owners' ensures Deletes(owners'[u], q) <==> q in doomed' && doomed'[q] == u {
      assert Deletes(owners[t], q) <==> q == o;
      if u == t {
        assert owners'[t] == l && !Deletes(l, q);
        assert Deletes(owners[t], q) <==> q in doomed && doomed[q] == t;
      } else {
        assert u in owners && owners'[u] == owners[u];
        assert Deletes(owners[u], q) <==> q in doomed && doomed[q] == u;
      }
    }
  }

  lemma KnownMerged(owners: map<Owner, Local>, owners': map<Owner, Local>, count: map<Object, int>,
                    t: Owner, o: Object, l: Local)
    requires AllKnown(owners, count) && Merged(owners, owners', t, o, l)
    ensures AllKnown(owners', count)
  {
    forall u, x | u in owners' && x in owners'[u].slots ensures Known(count, owners'[u].slots[x]) {
      if u == t && x in owners[Inside(o)].slots {
        assert Known(count, owners[Inside(o)].slots[x]);
      } else {
        assert Known(count, owners[u].slots[x]);
      }
    }
  }

  lemma DeleteIsLocalOk(l: Local, o: Object, members: map<Slot, Pointer>)
    requires LocalOk(l) && Deletes(l, o) && members.Keys !! l.slots.Keys
    requires forall x :: x in members ==> !members[x].Uncounted?
    ensures var l' := Local(l.slots + members, ReleaseCode(Downward(members.Keys)) + l.code[1..], l.lent);
            LocalOk(l') && !Deleting(l')
  {
    MembersToRelease(l.slots, members, Kept(l), l.code[1..]);
    BalancedIsLocalOk(Local(l.slots + members, ReleaseCode(Downward(members.Keys)) + l.code[1..], l.lent));
  }

  lemma HomesMerged(owners: map<Owner, Local>, owners': map<Owner, Local>, count: map<Object, int>,
                    deleted: set<Object>, t: Owner, o: Object, l: Local)
    requires HomesOk(owners, count, deleted) && Merged(owners, owners', t, o, l)
    ensures HomesOk(owners', count, deleted + {o})
  {
  }

  lemma MergedHold(owners: map<Owner, Local>, owners': map<Owner, Local>, count: map<Object, int>,
                   t: Owner, o: Object, l: Local)
    requires SlotsOk(owners) && CountsOk(owners, count) && Merged(owners, owners', t, o, l)
    ensures CountsOk(owners', count)
  {
    forall q ensures Holders(owners', q) == Holders(owners, q) {
      MergedHolders(owners, owners', t, o, l, q);
    }
  }

  lemma MergedLocals(owners: map<Owner, Local>, owners': map<Owner, Local>, t: Owner, o: Object, l: Local)
    requires LocalsOk(owners) && LocalOk(l) && Merged(owners, owners', t, o, l)
    ensures LocalsOk(owners')
  {
  }

  lemma MergedCounts(s: State, owners': map<Owner, Local>, t: Owner, o: Object, l: Local)
    requires Counting(s) && Merged(s.owners, owners', t, o, l) && Deletes(s.owners[t], o)
    requires LocalOk(l) && !Deleting(l)
    ensures Counting(s.(owners := owners', deleted := s.deleted + {o}, doomed := s.doomed - {o}))
  {
    MergedSlots(s.owners, owners', t, o, l);
    MergedLocals(s.owners, owners', t, o, l);
    KnownMerged(s.owners, owners', s.count, t, o, l);
    HomesMerged(s.owners, owners', s.count, s.deleted, t, o, l);
    DoomedMerged(s.owners, owners', s.doomed, t, o, l);
    DeathsAfterDelete(s.count, s.deleted, s.zeros, s.doomed, o);
    MergedHold(s.owners, owners', s.count, t, o, l);
  }

  /** The owner that the deleting thread becomes. */
  ghost function Deleter(s: State, t: Owner, o: Object): Local
    requires t in s.owners && s.owners[t].code != []
  {
    var Local(slots, code, lent) := s.owners[t];
    var members := Members(s, o);
    Local(slots + members, ReleaseCode(Downward(members.Keys)) + code[1..], lent)
  }

  lemma DeleteState(s: State, t: Owner, o: Object)
    requires Enabled(s, Step(t)) && s.owners[t].code[0].Delete? && Deletes(s.owners[t], o) && o !in s.deleted
    ensures Execute(s, t) == s.(owners := (s.owners - {Inside(o)})[t := Deleter(s, t, o)],
                                shared := (set e | e in s.shared && e.0 != Inside(o)),
                                deleted := s.deleted + {o}, doomed := s.doomed - {o})
  {
  }

  lemma DeleteKeeps(s: State, t: Owner)
    requires Counting(s) && Enabled(s, Step(t)) && s.owners[t].code[0].Delete?
    ensures Counting(Execute(s, t))
  {
    var o := DoomedHome(s, t);
    var l := Deleter(s, t, o);
    var owners' := (s.owners - {Inside(o)})[t := l];
    MembersAreSettled(s, t, o);
    DeleteIsLocalOk(s.owners[t], o, Members(s, o));
    MergedCounts(s, owners', t, o, l);
    DeleteState(s, t, o);
  }

  /** The object to be deleted still has its members. */
  lemma DoomedHome(s: State, t: Owner) returns (o: Object)
    requires Counting(s) && t in s.owners && s.owners[t].code != [] && s.owners[t].code[0].Delete?
    ensures LocalOk(s.owners[t]) && Deletes(s.owners[t], o)
    ensures Dead(s.count, o) && o !in s.deleted && Inside(o) in s.owners
  {
    var l := s.owners[t];
    assert LocalOk(l);
    o := l.slots[l.code[0].slot].target;
    assert Deletes(l, o);
    assert o in s.doomed && o !in s.deleted && Dead(s.count, o);
  }

  lemma MembersAreSettled(s: State, t: Owner, o: Object)
    requires Counting(s) && t in s.owners && t.Thread? && Inside(o) in s.owners
    ensures Members(s, o).Keys !! s.owners[t].slots.Keys
    ensures forall x :: x in Members(s, o) ==> !Members(s, o)[x].Uncounted?
  {
    assert LocalOk(s.owners[Inside(o)]);
    forall x | x in s.owners[t].slots ensures x !in Members(s, o) {
      assert NowhereElse(s.owners, t, x);
    }
  }

  lemma FetchAddKeeps(s: State, t: Owner)
    requires Invariant(s) && Enabled(s, Step(t)) && s.owners[t].code[0].FetchAdd?
    ensures Counting(Execute(s, t))
  {
    var Local(slots, code, lent) := s.owners[t];
    var a := code[0].slot;
    assert LocalOk(s.owners[t]);
    if slots[a].Null? {
      var l := Local(slots, code[1..], lent);
      BalancedIsLocalOk(l);
      CodeChange(s, t, l);
    } else {
      KeptIsAlive(s, t, slots[a].target);
      FetchAddCounts(s, t, a, slots[a].target);
    }
  }

  lemma AddIsLocalOk(l: Local, a: Slot, o: Object)
    requires LocalOk(l) && l.code != [] && l.code[0] == FetchAdd(a) && a in l.slots && l.slots[a] == Uncounted(o)
    ensures !Deleting(l)
    ensures var l' := Local(l.slots[a := Counted(o)], l.code[1..], l.lent); LocalOk(l') && !Deleting(l')
  {
    BalancedIsLocalOk(Local(l.slots[a := Counted(o)], l.code[1..], l.lent));
  }

  lemma FetchAddCounts(s: State, t: Owner, a: Slot, o: Object)
    requires Counting(s) && Enabled(s, Step(t)) && s.owners[t].code[0] == FetchAdd(a)
    requires s.owners[t].slots[a] == Uncounted(o) && IsAlive(s, o)
    ensures Counting(Execute(s, t))
  {
    var l := Local(s.owners[t].slots[a := Counted(o)], s.owners[t].code[1..], s.owners[t].lent);
    AddIsLocalOk(s.owners[t], a, o);
    AddedCounts(s, t, a, o, l);
    AddedState(s, t, a, o, l);
  }

  lemma AddedCounts(s: State, t: Owner, a: Slot, o: Object, l: Local)
    requires Counting(s) && t.Thread? && t in s.owners && a in s.owners[t].slots && s.owners[t].slots[a] == Uncounted(o)
    requires !Deleting(s.owners[t]) && l.slots == s.owners[t].slots[a := Counted(o)] && LocalOk(l) && !Deleting(l)
    requires IsAlive(s, o)
    ensures Counting(s.(owners := s.owners[t := l], count := s.count[o := s.count[o] + 1]))
  {
    var n := s.count[o] + 1;
    assert n == |Holders(s.owners, o)| + 1;
    AddedTo(s.owners, s.count, t, a, o, l, n);
    DoomedQuiet(s.owners, s.doomed, t, l);
    assert !Dead(s.count, o);
    DeathsAfterCount(s.count, s.deleted, s.zeros, s.doomed, o, n);
  }

  lemma AddedState(s: State, t: Owner, a: Slot, o: Object, l: Local)
    requires Enabled(s, Step(t)) && s.owners[t].code[0] == FetchAdd(a) && s.owners[t].slots[a] == Uncounted(o)
    requires o !in s.deleted && l == Local(s.owners[t].slots[a := Counted(o)], s.owners[t].code[1..], s.owners[t].lent)
    ensures Execute(s, t) == s.(owners := s.owners[t := l], count := s.count[o := s.count[o] + 1])
  {
  }

  /** A slot becomes a counted reference to `o`, whose count is set to cover it. */
  lemma AddedTo(owners: map<Owner, Local>, count: map<Object, int>, t: Owner, a: Slot, o: Object, l: Local, n: int)
    requires LocalsOk(owners) && AllKnown(owners, count) && CountsOk(owners, count) && SlotsOk(owners)
    requires t in owners && a in owners[t].slots && !owners[t].slots[a].Counted?
    requires l.slots == owners[t].slots[a := Counted(o)] && LocalOk(l) && n == |Holders(owners, o)| + 1
    ensures LocalsOk(owners[t := l]) && AllKnown(owners[t := l], count[o := n])
    ensures CountsOk(owners[t := l], count[o := n]) && SlotsOk(owners[t := l])
  {
    LocalsFrame(owners, t, l);
    SlotsFrame(owners, t, l);
    KnownAfter(owners, count, t, l, count[o := n], a, Counted(o));
    CountsAfterAdd(owners, count, t, l, a, o, n);
  }

  /** An object nobody created is held by nobody. */
  lemma UnknownIsUnheld(s: State, o: Object)
    requires AllKnown(s.owners, s.count) && o !in s.count
    ensures Holders(s.owners, o) == {}
  {
    forall t, x | t in s.owners && x in s.owners[t].slots ensures s.owners[t].slots[x] != Counted(o) {
      assert Known(s.count, s.owners[t].slots[x]);
    }
  }

  /** A new object, without members. */
  lemma NewHome(s: State, o: Object, owners': map<Owner, Local>)
    requires owners' == s.owners[Inside(o) := Local(map[], [], [])]
    requires o in s.count && o !in s.deleted && Inside(o) !in s.owners
    requires LocalsOk(s.owners) && AllKnown(s.owners, s.count) && SlotsOk(s.owners) && CountsOk(s.owners, s.count)
    requires DoomedOk(s.owners, s.doomed) && DeathsOk(s.count, s.deleted, s.zeros, s.doomed) && !s.touchedDeleted
    requires forall q :: q != o ==> (Inside(q) in s.owners <==> q in s.count && q !in s.deleted)
    requires forall q :: Inside(q) in s.owners ==> s.owners[Inside(q)].code == []
    ensures Counting(s.(owners := owners'))
  {
    assert Balanced(map[], {}, []);
    NewHomeSlots(s.owners, o, owners');
    forall q ensures Holders(owners', q) == Holders(s.owners, q) {
      NewHomeHolders(s.owners, o, owners', q);
    }
    NewHomeRest(s.owners, o, owners', s.count, s.deleted, s.doomed);
  }

  lemma NewHomeRest(owners: map<Owner, Local>, o: Object, owners': map<Owner, Local>, count: map<Object, int>,
                    deleted: set<Object>, doomed: map<Object, Owner>)
    requires owners' == owners[Inside(o) := Local(map[], [], [])] && Inside(o) !in owners
    requires AllKnown(owners, count) && DoomedOk(owners, doomed) && o in count && o !in deleted
    requires forall q :: q != o ==> (Inside(q) in owners <==> q in count && q !in deleted)
    requires forall q :: Inside(q) in owners ==> owners[Inside(q)].code == []
    ensures AllKnown(owners', count) && DoomedOk(owners', doomed) && HomesOk(owners', count, deleted)
  {
    forall u, x | u in owners' && x in owners'[u].slots ensures Known(count, owners'[u].slots[x]) {
      assert Known(count, owners[u].slots[x]);
    }
    forall u, q | u in owners' ensures Deletes(owners'[u], q) <==> q in doomed && doomed[q] == u {
      assert u != Inside(o) ==> owners'[u] == owners[u];
    }
  }

  lemma NewHomeSlots(owners: map<Owner, Local>, o: Object, owners': map<Owner, Local>)
    requires owners' == owners[Inside(o) := Local(map[], [], [])] && Inside(o) !in owners && SlotsOk(owners)
    ensures SlotsOk(owners')
  {
    forall u, x | u in owners' && x in owners'[u].slots ensures NowhereElse(owners', u, x) {
      assert NowhereElse(owners, u, x);
    }
  }

  lemma NewHomeHolders(owners: map<Owner, Local>, o: Object, owners': map<Owner, Local>, q: Object)
    requires owners' == owners[Inside(o) := Local(map[], [], [])] && Inside(o) !in owners
    ensures Holders(owners', q) == Holders(owners, q)
  {
    forall u, x | u in owners && Has(owners[u].slots, x, q) ensures HeldSomewhere(owners', x, q) {
      assert u in owners' && Has(owners'[u].slots, x, q);
    }
    SameHolders(owners, owners', q);
  }

  /** The thread that makes the object, without the object's home. */
  lemma AdoptedCounts(s: State, t: Owner, a: Slot, o: Object, l: Local, owners': map<Owner, Local>)
    requires Counting(s) && t.Thread? && t in s.owners && a in s.owners[t].slots && s.owners[t].slots[a].Null?
    requires !Deleting(s.owners[t]) && l.slots == s.owners[t].slots[a := Counted(o)] && LocalOk(l) && !Deleting(l)
    requires o !in s.count && owners' == s.owners[t := l][Inside(o) := Local(map[], [], [])]
    ensures Counting(s.(owners := owners', count := s.count[o := 1]))
  {
    UnknownIsUnheld(s, o);
    assert o !in s.doomed && o !in s.deleted by {
      assert !Dead(s.count, o);
    }
    AddedTo(s.owners, s.count, t, a, o, l, 1);
    DoomedQuiet(s.owners, s.doomed, t, l);
    DeathsAfterCount(s.count, s.deleted, s.zeros, s.doomed, o, 1);
    NewHome(s.(owners := s.owners[t := l], count := s.count[o := 1]), o, owners');
  }

  lemma AdoptIsLocalOk(l: Local, a: Slot, o: Object)
    requires LocalOk(l) && l.code != [] && l.code[0] == Adopt(a, o) && a in l.slots
    ensures !Deleting(l) && l.slots[a].Null?
    ensures var l' := Local(l.slots[a := Counted(o)], l.code[1..], l.lent); LocalOk(l') && !Deleting(l')
  {
    BalancedIsLocalOk(Local(l.slots[a := Counted(o)], l.code[1..], l.lent));
  }

  lemma AdoptKeeps(s: State, t: Owner)
    requires Counting(s) && Enabled(s, Step(t)) && s.owners[t].code[0].Adopt?
    ensures Counting(Execute(s, t))
  {
    var Local(slots, code, lent) := s.owners[t];
    var Adopt(a, o) := code[0];
    var l := Local(slots[a := Counted(o)], code[1..], lent);
    assert LocalOk(s.owners[t]);
    AdoptIsLocalOk(s.owners[t], a, o);
    AdoptedCounts(s, t, a, o, l, s.owners[t := l][Inside(o) := Local(map[], [], [])]);
  }

  lemma StealIsLocalOk(l: Local, a: Slot, b: Slot)
    requires LocalOk(l) && l.code != [] && l.code[0] == Steal(b, a) && a in l.slots && b in l.slots
    ensures !Deleting(l) && a != b && !l.slots[a].Counted?
    ensures var l' := Local(l.slots[a := l.slots[b]][b := Null], l.code[1..], l.lent); LocalOk(l') && !Deleting(l')
  {
    BalancedIsLocalOk(Local(l.slots[a := l.slots[b]][b := Null], l.code[1..], l.lent));
  }

  lemma StolenCounts(s: State, t: Owner, a: Slot, b: Slot, l: Local)
    requires Counting(s) && t.Thread? && t in s.owners && a in s.owners[t].slots && b in s.owners[t].slots && a != b
    requires !s.owners[t].slots[a].Counted? && l.slots == s.owners[t].slots[a := s.owners[t].slots[b]][b := Null]
    requires !Deleting(s.owners[t]) && LocalOk(l) && !Deleting(l)
    ensures Counting(s.(owners := s.owners[t := l]))
  {
    forall x | x in l.slots ensures Known(s.count, l.slots[x]) {
      assert Known(s.count, s.owners[t].slots[x]) && Known(s.count, s.owners[t].slots[b]);
    }
    LocalsFrame(s.owners, t, l);
    SlotsFrame(s.owners, t, l);
    HomesFrame(s.owners, s.count, s.deleted, t, l, s.count);
    KnownFrame(s.owners, s.count, t, l, s.count);
    CountsAfterSteal(s.owners, s.count, t, l, a, b);
    DoomedQuiet(s.owners, s.doomed, t, l);
  }

  lemma StealKeeps(s: State, t: Owner)
    requires Counting(s) && Enabled(s, Step(t)) && s.owners[t].code[0].Steal?
    ensures Counting(Execute(s, t))
  {
    var Local(slots, code, lent) := s.owners[t];
    var Steal(b, a) := code[0];
    var l := Local(slots[a := slots[b]][b := Null], code[1..], lent);
    assert LocalOk(s.owners[t]);
    StealIsLocalOk(s.owners[t], a, b);
    StolenCounts(s, t, a, b, l);
  }

  lemma StoreKeeps(s: State, t: Owner)
    requires Invariant(s) && Enabled(s, Step(t)) && (s.owners[t].code[0].Store? || s.owners[t].code[0].Clear?)
    ensures Counting(Execute(s, t))
  {
    var Local(slots, code, lent) := s.owners[t];
    var i := code[0];
    var p := if i.Store? then i.value else Null;
    var l := Local(slots[i.slot := p], code[1..], lent);
    assert LocalOk(s.owners[t]);
    BalancedIsLocalOk(l);
    if p.Uncounted? {
      KeptIsAlive(s, t, p.target);
    }
    StoreChange(s, t, i.slot, p, l);
  }

  lemma ExecuteKeeps(s: State, t: Owner)
    requires Invariant(s) && Enabled(s, Step(t))
    ensures Counting(Execute(s, t))
  {
    match s.owners[t].code[0]
    case FetchSub(_) => FetchSubKeeps(s, t);
    case Delete(_) => DeleteKeeps(s, t);
    case Clear(_) => StoreKeeps(s, t);
    case Store(_, _) => StoreKeeps(s, t);
    case FetchAdd(_) => FetchAddKeeps(s, t);
    case Steal(_, _) => StealKeeps(s, t);
    case Adopt(_, _) => AdoptKeeps(s, t);
  }

  // Shared slots.

  /** A thread may change all but its shared slots. */
  lemma SharingFrame(owners: map<Owner, Local>, shared: set<(Owner, Slot)>, t: Owner, l: Local)
    requires SharingOk(owners, shared) && t in owners
    requires forall x :: (t, x) in shared ==> Untouched(l, x) && l.slots[x] == owners[t].slots[x]
    requires l.code != [] ==> LentOk(owners, shared, l)
    ensures SharingOk(owners[t := l], shared)
  {
    var owners' := owners[t := l];
    forall u | u in owners' && owners'[u].code != [] ensures LentOk(owners', shared, owners'[u]) {
      assert u != t ==> owners'[u] == owners[u];
      StillLent(owners, shared, t, l, owners'[u]);
    }
  }

  lemma StillLent(owners: map<Owner, Local>, shared: set<(Owner, Slot)>, t: Owner, l: Local, k: Local)
    requires t in owners && forall x :: (t, x) in shared ==> Untouched(l, x) && x in owners[t].slots && l.slots[x] == owners[t].slots[x]
    requires LentOk(owners, shared, k)
    ensures LentOk(owners[t := l], shared, k)
  {
    forall e | e in k.lent ensures Lends(owners[t := l], shared, e) && Relies(k, e.owner) {
      assert Lends(owners, shared, e);
    }
  }

  /** What the thread relied on before a step it can still rely on. */
  lemma StillRelies(l: Local, l': Local, u: Owner)
    requires Relies(l, u) && l'.lent == l.lent
    requires forall x :: x in l.slots && LeavesAlone(l.code, x) ==>
               x in l'.slots && l'.slots[x] == l.slots[x] && LeavesAlone(l'.code, x)
    ensures Relies(l', u)
  {
    if u.Inside? && Anchored(l, u.host) {
      var b :| b in l.slots && l.slots[b] == Counted(u.host) && LeavesAlone(l.code, b);
      assert l'.slots[b] == Counted(u.host);
    }
  }

  lemma LeavesAloneAfter(code: seq<Instruction>, first: seq<Instruction>, x: Slot)
    requires code != [] && LeavesAlone(code, x) && LeavesAlone(first, x)
    ensures LeavesAlone(first + code[1..], x)
  {
    var next := first + code[1..];
    forall k | 0 <= k < |next| ensures !Writes(next[k], x) {
      assert k >= |first| ==> next[k] == code[k - |first| + 1];
    }
  }

  ghost predicate StaysInPlace(i: Instruction) {
    !i.Delete? && !i.Adopt?
  }

  /** What a step makes of its own thread. */
  lemma ExecuteLocal(s: State, t: Owner) returns (l: Local)
    requires Enabled(s, Step(t)) && StaysInPlace(s.owners[t].code[0])
    ensures Execute(s, t).owners == s.owners[t := l] && Execute(s, t).shared == s.shared
    ensures l.lent == s.owners[t].lent
    ensures forall x :: x in s.owners[t].slots && LeavesAlone(s.owners[t].code, x) ==>
              x in l.slots && l.slots[x] == s.owners[t].slots[x] && LeavesAlone(l.code, x)
  {
    l := Execute(s, t).owners[t];
    var code := s.owners[t].code;
    var first := FirstSteps(s, t);
    forall x | x in s.owners[t].slots && LeavesAlone(code, x)
      ensures l.slots[x] == s.owners[t].slots[x] && LeavesAlone(l.code, x)
    {
      assert !Writes(code[0], x);
      LeavesAloneAfter(code, first, x);
    }
  }

  lemma FirstSteps(s: State, t: Owner) returns (first: seq<Instruction>)
    requires Enabled(s, Step(t)) && StaysInPlace(s.owners[t].code[0])
    ensures Execute(s, t).owners[t].code == first + s.owners[t].code[1..]
    ensures forall x :: !Writes(s.owners[t].code[0], x) ==> LeavesAlone(first, x)
  {
    var code, i := Execute(s, t).owners[t].code, s.owners[t].code[0];
    var rest := s.owners[t].code[1..];
    if i.FetchSub? && !s.owners[t].slots[i.slot].Null? {
      first := if s.count[s.owners[t].slots[i.slot].target] - 1 == 0 then [Delete(i.slot), Clear(i.slot)] else [Clear(i.slot)];
    } else {
      first := [];
      assert first + rest == rest;
    }
  }

  lemma StepSharing(s: State, t: Owner)
    requires SharingOk(s.owners, s.shared) && Enabled(s, Step(t)) && StaysInPlace(s.owners[t].code[0])
    ensures SharingOk(Execute(s, t).owners, Execute(s, t).shared)
  {
    var l := ExecuteLocal(s, t);
    LocalSharing(s.owners, s.shared, t, l);
    SharingFrame(s.owners, s.shared, t, l);
  }

  lemma LocalSharing(owners: map<Owner, Local>, shared: set<(Owner, Slot)>, t: Owner, l: Local)
    requires SharingOk(owners, shared) && t in owners && owners[t].code != [] && l.lent == owners[t].lent
    requires forall x :: x in owners[t].slots && LeavesAlone(owners[t].code, x) ==>
               x in l.slots && l.slots[x] == owners[t].slots[x] && LeavesAlone(l.code, x)
    ensures LentOk(owners, shared, l)
    ensures forall x :: (t, x) in shared ==> Untouched(l, x) && l.slots[x] == owners[t].slots[x]
  {
    forall x | (t, x) in shared ensures Untouched(l, x) && l.slots[x] == owners[t].slots[x] {
      assert Untouched(owners[t], x);
    }
    assert LentOk(owners, shared, owners[t]);
    forall e | e in l.lent ensures Lends(owners, shared, e) && Relies(l, e.owner) {
      StillRelies(owners[t], l, e.owner);
    }
  }

  /** An object without references lends nothing. */
  lemma DeadLendsNothing(s: State, o: Object, u: Owner, e: Lent)
    requires Invariant(s) && Dead(s.count, o) && u in s.owners && s.owners[u].code != [] && e in s.owners[u].lent
    ensures e.owner != Inside(o)
  {
    var l := s.owners[u];
    assert LentOk(s.owners, s.shared, l);
    assert Relies(l, e.owner);
    if e.owner.Inside? {
      var q := e.owner.host;
      assert Anchored(l, q) ==> Holds(l.slots, q);
      KeptIsAlive(s, u, q);
    }
  }

  lemma DeleterLeaves(s: State, t: Owner, o: Object)
    requires Counting(s) && Enabled(s, Step(t)) && s.owners[t].code[0].Delete? && Inside(o) in s.owners
    ensures forall x :: x in s.owners[t].slots && LeavesAlone(s.owners[t].code, x) ==>
              x in Deleter(s, t, o).slots && Deleter(s, t, o).slots[x] == s.owners[t].slots[x]
              && LeavesAlone(Deleter(s, t, o).code, x)
  {
    MembersAreSettled(s, t, o);
    var order := Downward(Members(s, o).Keys);
    forall x | x in s.owners[t].slots && LeavesAlone(s.owners[t].code, x)
      ensures LeavesAlone(Deleter(s, t, o).code, x)
    {
      ReleasesLeaveAlone(order, x);
      LeavesAloneAfter(s.owners[t].code, ReleaseCode(order), x);
    }
  }

  lemma {:induction false} ReleasesLeaveAlone(order: seq<Slot>, x: Slot)
    requires x !in order
    ensures LeavesAlone(ReleaseCode(order), x)
  {
    if order != [] {
      assert order == [order[0]] + order[1..];
      ReleasesLeaveAlone(order[1..], x);
    }
  }

  ghost predicate LendsNothing(owners: map<Owner, Local>, o: Object) {
    forall u, e :: u in owners && owners[u].code != [] && e in owners[u].lent ==> e.owner != Inside(o)
  }

  lemma DeadLends(s: State, o: Object)
    requires Invariant(s) && Dead(s.count, o)
    ensures LendsNothing(s.owners, o)
  {
    forall u, e | u in s.owners && s.owners[u].code != [] && e in s.owners[u].lent ensures e.owner != Inside(o) {
      DeadLendsNothing(s, o, u, e);
    }
  }

  lemma StillLendsNothing(owners: map<Owner, Local>, t: Owner, l: Local, o: Object)
    requires LendsNothing(owners, o) && t in owners && owners[t].code != [] && l.lent == owners[t].lent
    ensures LendsNothing(owners[t := l], o)
  {
  }

  lemma DeleterSharing(s: State, t: Owner, o: Object)
    requires Invariant(s) && Enabled(s, Step(t)) && s.owners[t].code[0].Delete? && Inside(o) in s.owners
    ensures SharingOk(s.owners[t := Deleter(s, t, o)], s.shared)
  {
    var l := Deleter(s, t, o);
    DeleterLeaves(s, t, o);
    LocalSharing(s.owners, s.shared, t, l);
    SharingFrame(s.owners, s.shared, t, l);
  }

  lemma DeletedSharing(s: State, t: Owner, o: Object)
    requires Invariant(s) && Enabled(s, Step(t)) && s.owners[t].code[0].Delete? && Inside(o) in s.owners
    requires Dead(s.count, o)
    ensures SharingOk(s.owners[t := Deleter(s, t, o)] - {Inside(o)}, (set e | e in s.shared && e.0 != Inside(o)))
  {
    DeleterSharing(s, t, o);
    DeadLends(s, o);
    StillLendsNothing(s.owners, t, Deleter(s, t, o), o);
    HomeLost(s.owners[t := Deleter(s, t, o)], s.shared, o);
  }

  lemma DeletedOwners(s: State, t: Owner, o: Object)
    requires Enabled(s, Step(t)) && s.owners[t].code[0].Delete? && Deletes(s.owners[t], o) && o !in s.deleted
    ensures Execute(s, t).owners == s.owners[t := Deleter(s, t, o)] - {Inside(o)}
    ensures Execute(s, t).shared == (set e | e in s.shared && e.0 != Inside(o))
  {
    DeleteState(s, t, o);
    assert t != Inside(o);
  }

  lemma DeleteSharing(s: State, t: Owner)
    requires Invariant(s) && Enabled(s, Step(t)) && s.owners[t].code[0].Delete?
    ensures SharingOk(Execute(s, t).owners, Execute(s, t).shared)
  {
    var o := DoomedHome(s, t);
    DeletedSharing(s, t, o);
    DeletedOwners(s, t, o);
  }

  /** The slots of an object that lends nothing can go. */
  lemma HomeLost(owners: map<Owner, Local>, shared: set<(Owner, Slot)>, o: Object)
    requires SharingOk(owners, shared) && LendsNothing(owners, o)
    ensures SharingOk(owners - {Inside(o)}, (set e | e in shared && e.0 != Inside(o)))
  {
    var owners', shared' := owners - {Inside(o)}, (set e | e in shared && e.0 != Inside(o));
    forall u | u in owners' && owners'[u].code != [] ensures LentOk(owners', shared', owners'[u]) {
      assert LentOk(owners, shared, owners[u]);
      forall e | e in owners[u].lent ensures Lends(owners', shared', e) {
        assert Lends(owners, shared, e);
      }
    }
  }

  lemma AdoptSharing(s: State, t: Owner)
    requires Invariant(s) && Enabled(s, Step(t)) && s.owners[t].code[0].Adopt?
    ensures SharingOk(Execute(s, t).owners, Execute(s, t).shared)
  {
    var Local(slots, code, lent) := s.owners[t];
    var Adopt(a, o) := code[0];
    var l := Local(slots[a := Counted(o)], code[1..], lent);
    forall x | x in slots && LeavesAlone(code, x) ensures l.slots[x] == slots[x] && LeavesAlone(l.code, x) {
      assert !Writes(code[0], x);
      LeavesAloneAfter(code, [], x);
      assert [] + code[1..] == code[1..];
    }
    LocalSharing(s.owners, s.shared, t, l);
    SharingFrame(s.owners, s.shared, t, l);
    HomeAdded(s.owners[t := l], s.shared, o);
  }

  lemma HomeAdded(owners: map<Owner, Local>, shared: set<(Owner, Slot)>, o: Object)
    requires SharingOk(owners, shared) && Inside(o) !in owners
    ensures SharingOk(owners[Inside(o) := Local(map[], [], [])], shared)
  {
    var owners' := owners[Inside(o) := Local(map[], [], [])];
    forall u | u in owners' && owners'[u].code != [] ensures LentOk(owners', shared, owners'[u]) {
      assert LentOk(owners, shared, owners[u]);
      forall e | e in owners[u].lent ensures Lends(owners', shared, e) {
        assert Lends(owners, shared, e);
      }
    }
  }

  lemma ExecuteSharing(s: State, t: Owner)
    requires Invariant(s) && Enabled(s, Step(t))
    ensures SharingOk(Execute(s, t).owners, Execute(s, t).shared)
  {
    var i := s.owners[t].code[0];
    if i.Delete? {
      DeleteSharing(s, t);
    } else if i.Adopt? {
      AdoptSharing(s, t);
    } else {
      StepSharing(s, t);
    }
  }

  // ---------------------------------------------------------------------------------------
  // Every action keeps the invariant
  // ---------------------------------------------------------------------------------------

  /** One slot is moved from an owner to another. */
  ghost predicate Moved(owners: map<Owner, Local>, t: Owner, x: Slot, u: Owner, l: Local, k: Local) {
    && t in owners && u in owners && t != u
    && owners[t].code == [] && owners[u].code == [] && l.code == [] && k.code == []
    && x in owners[t].slots && x !in owners[u].slots
    && l.slots == owners[t].slots - {x} && k.slots == owners[u].slots[x := owners[t].slots[x]]
  }

  lemma MovedHolders(owners: map<Owner, Local>, t: Owner, x: Slot, u: Owner, l: Local, k: Local, o: Object)
    requires Moved(owners, t, x, u, l, k)
    ensures Holders(owners[t := l][u := k], o) == Holders(owners, o)
  {
    var owners' := owners[t := l][u := k];
    forall w, y | w in owners && Has(owners[w].slots, y, o) ensures HeldSomewhere(owners', y, o) {
      assert Has(owners'[if w == t && y == x then u else w].slots, y, o);
    }
    forall w, y | w in owners' && Has(owners'[w].slots, y, o) ensures HeldSomewhere(owners, y, o) {
      assert Has(owners[if w == u && y == x then t else w].slots, y, o);
    }
    SameHolders(owners, owners', o);
  }

  lemma MovedSlots(owners: map<Owner, Local>, t: Owner, x: Slot, u: Owner, l: Local, k: Local)
    requires SlotsOk(owners) && Moved(owners, t, x, u, l, k)
    ensures SlotsOk(owners[t := l][u := k])
  {
    var owners' := owners[t := l][u := k];
    forall w, y | w in owners' && y in owners'[w].slots ensures NowhereElse(owners', w, y) {
      assert NowhereElse(owners, if w == u && y == x then t else w, y);
    }
  }

  lemma MovedLocals(owners: map<Owner, Local>, count: map<Object, int>, t: Owner, x: Slot, u: Owner, l: Local, k: Local)
    requires LocalsOk(owners) && AllKnown(owners, count) && Moved(owners, t, x, u, l, k)
    ensures LocalsOk(owners[t := l][u := k]) && AllKnown(owners[t := l][u := k], count)
  {
    assert LocalOk(owners[t]) && LocalOk(owners[u]);
    forall y | y in l.slots ensures Known(count, l.slots[y]) {
      assert Known(count, owners[t].slots[y]);
    }
    forall y | y in k.slots ensures Known(count, k.slots[y]) {
      assert Known(count, owners[t].slots[x]);
      assert y != x ==> Known(count, owners[u].slots[y]);
    }
    KnownFrame(owners, count, t, l, count);
    KnownFrame(owners[t := l], count, u, k, count);
  }

  lemma MovedCounts(owners: map<Owner, Local>, count: map<Object, int>, doomed: map<Object, Owner>,
                    t: Owner, x: Slot, u: Owner, l: Local, k: Local)
    requires CountsOk(owners, count) && DoomedOk(owners, doomed) && Moved(owners, t, x, u, l, k)
    ensures CountsOk(owners[t := l][u := k], count) && DoomedOk(owners[t := l][u := k], doomed)
  {
    var owners' := owners[t := l][u := k];
    forall o ensures Holders(owners', o) == Holders(owners, o) {
      MovedHolders(owners, t, x, u, l, k, o);
    }
    DoomedQuiet(owners, doomed, t, l);
    DoomedQuiet(owners[t := l], doomed, u, k);
  }

  lemma MovedHomes(owners: map<Owner, Local>, count: map<Object, int>, deleted: set<Object>,
                   t: Owner, x: Slot, u: Owner, l: Local, k: Local)
    requires HomesOk(owners, count, deleted) && Moved(owners, t, x, u, l, k)
    ensures HomesOk(owners[t := l][u := k], count, deleted)
  {
  }

  lemma MovedSharing(owners: map<Owner, Local>, shared: set<(Owner, Slot)>, t: Owner, x: Slot, u: Owner,
                     l: Local, k: Local)
    requires SharingOk(owners, shared) && Moved(owners, t, x, u, l, k) && (t, x) !in shared
    ensures SharingOk(owners[t := l][u := k], shared)
  {
    assert forall y :: (t, y) in shared ==> Untouched(owners[t], y);
    assert forall y :: (u, y) in shared ==> Untouched(owners[u], y);
    SharingFrame(owners, shared, t, l);
    SharingFrame(owners[t := l], shared, u, k);
  }

  lemma MoveSlotKeeps(s: State, t: Owner, x: Slot, u: Owner)
    requires Invariant(s) && t in s.owners && u in s.owners && t != u
    requires s.owners[t].code == [] && s.owners[u].code == [] && x in s.owners[t].slots && (t, x) !in s.shared
    ensures Invariant(MoveSlot(s, t, x, u))
  {
    var me, other := s.owners[t], s.owners[u];
    var l, k := me.(slots := me.slots - {x}), other.(slots := other.slots[x := me.slots[x]]);
    assert NowhereElse(s.owners, t, x);
    MovedSlots(s.owners, t, x, u, l, k);
    MovedLocals(s.owners, s.count, t, x, u, l, k);
    MovedCounts(s.owners, s.count, s.doomed, t, x, u, l, k);
    MovedHomes(s.owners, s.count, s.deleted, t, x, u, l, k);
    MovedSharing(s.owners, s.shared, t, x, u, l, k);
    NeverGone(s, t);
    NeverGone(s, u);
    assert MoveSlot(s, t, x, u) == s.(owners := s.owners[t := l][u := k]);
  }

  /** Who still has slots is not deleted. */
  lemma NeverGone(s: State, u: Owner)
    requires Counting(s) && u in s.owners
    ensures !IsGone(s, u)
  {
  }

  lemma DeclareKeeps(s: State, t: Owner, x: Slot)
    requires Invariant(s) && Enabled(s, Declare(t, x))
    ensures Invariant(Apply(s, Declare(t, x)))
  {
    var me := s.owners[t];
    var l := me.(slots := me.slots[x := Null]);
    assert LocalOk(me);
    BalancedIsLocalOk(l);
    LocalsFrame(s.owners, t, l);
    DeclaredSlots(s.owners, t, x, l);
    KnownAfter(s.owners, s.count, t, l, s.count, x, Null);
    assert CountsOk(s.owners[t := l], s.count) by {
      forall o ensures |Holders(s.owners[t := l], o)| == |Holders(s.owners, o)| {
        SlotDiffers(s.owners, t, x, l, o);
      }
    }
    DoomedQuiet(s.owners, s.doomed, t, l);
    assert forall y :: (t, y) in s.shared ==> Untouched(me, y);
    SharingFrame(s.owners, s.shared, t, l);
  }

  lemma DeclaredSlots(owners: map<Owner, Local>, t: Owner, x: Slot, l: Local)
    requires SlotsOk(owners) && t in owners && l.slots == owners[t].slots[x := Null]
    requires forall u :: u in owners ==> x !in owners[u].slots
    ensures SlotsOk(owners[t := l])
  {
    var owners' := owners[t := l];
    forall u, y | u in owners' && y in owners'[u].slots ensures NowhereElse(owners', u, y) {
      assert y != x ==> NowhereElse(owners, u, y);
    }
  }

  /** Code that is begun: it is balanced, leaves the shared slots alone and can rely on what it
      has been lent. */
  lemma BeginKeeps(s: State, t: Owner, l: Local)
    requires Invariant(s) && t.Thread? && t in s.owners && s.owners[t].code == []
    requires l.slots == s.owners[t].slots && Balanced(l.slots, Kept(l), l.code)
    requires forall x :: (t, x) in s.shared ==> LeavesAlone(l.code, x)
    requires l.code != [] ==> LentOk(s.owners, s.shared, l)
    ensures Invariant(s.(owners := s.owners[t := l]))
  {
    BalancedIsLocalOk(l);
    CodeChange(s, t, l);
    assert forall x :: (t, x) in s.shared ==> Untouched(s.owners[t], x);
    SharingFrame(s.owners, s.shared, t, l);
  }

  lemma CodeWrites(op: Operation, slots: map<Slot, Pointer>, x: Slot)
    requires Applicable(op, slots) && x !in Written(op)
    ensures LeavesAlone(Code(op, slots), x)
  {
  }

  lemma OperationKeeps(s: State, t: Owner, op: Operation)
    requires Invariant(s) && Enabled(s, Begin(t, op))
    ensures Invariant(Apply(s, Begin(t, op)))
  {
    var slots := s.owners[t].slots;
    var l := Local(slots, Code(op, slots), []);
    assert LocalOk(s.owners[t]);
    OperationsAreBalanced(op, slots);
    assert Kept(l) == {};
    forall x | (t, x) in s.shared ensures LeavesAlone(l.code, x) {
      CodeWrites(op, slots, x);
    }
    BeginKeeps(s, t, l);
  }

  /** Who is reached is relied on. */
  lemma ReachesRelies(slots: map<Slot, Pointer>, x: Slot, p: Pointer, path: seq<Lent>, lent: seq<Lent>, u: Owner)
    requires Reaches(slots, x, path, u) && forall e :: e in path ==> e in lent
    ensures Relies(Local(slots, CopyCode(x, p), lent), u)
  {
    var l := Local(slots, CopyCode(x, p), lent);
    if u.Inside? && u.host !in Targets(path) {
      var b :| b in slots && b != x && slots[b] == Counted(u.host);
      assert LeavesAlone(l.code, b);
      assert Anchored(l, u.host);
    }
  }

  lemma SharedCopyLent(s: State, a: Action)
    requires Invariant(s) && Enabled(s, a) && a.BeginSharedCopy?
    ensures LentOk(s.owners, s.shared, Apply(s, a).owners[a.thread])
  {
    var BeginSharedCopy(t, x, path, u, y) := a;
    var p := s.owners[u].slots[y];
    assert Untouched(s.owners[u], y);
    var lent := if p.Null? then path else path + [Lent(u, y, p.target)];
    var l := Local(s.owners[t].slots, CopyCode(x, p), lent);
    forall e | e in lent ensures Lends(s.owners, s.shared, e) && Relies(l, e.owner) {
      ReachesRelies(l.slots, x, p, path, lent, e.owner);
    }
  }

  lemma SharedCopyKeeps(s: State, a: Action)
    requires Invariant(s) && Enabled(s, a) && a.BeginSharedCopy?
    ensures Invariant(Apply(s, a))
  {
    var BeginSharedCopy(t, x, path, u, y) := a;
    var l := Apply(s, a).owners[t];
    SharedCopyLent(s, a);
    SharedCopyIsBalanced(s, a);
    forall z | (t, z) in s.shared ensures LeavesAlone(l.code, z) {
      assert z != x;
    }
    BeginKeeps(s, t, l);
    NeverGone(s, u);
    forall e | e in path ensures !IsGone(s, e.owner) {
      NeverGone(s, e.owner);
    }
  }

  lemma SharedCopyIsBalanced(s: State, a: Action)
    requires Invariant(s) && Enabled(s, a) && a.BeginSharedCopy?
    ensures var l := Apply(s, a).owners[a.thread]; Balanced(l.slots, Kept(l), l.code)
  {
    var BeginSharedCopy(t, x, path, u, y) := a;
    var p := s.owners[u].slots[y];
    assert Untouched(s.owners[u], y);
    var l := Apply(s, a).owners[t];
    assert LocalOk(s.owners[t]);
    KeptSource(p, path, u, y, l);
    CopyIsBalanced(l.slots, Kept(l), x, p, []);
    assert CopyCode(x, p) + [] == CopyCode(x, p);
  }

  lemma KeptSource(p: Pointer, path: seq<Lent>, u: Owner, y: Slot, l: Local)
    requires l.lent == if p.Null? then path else path + [Lent(u, y, p.target)]
    ensures p.Null? || p.target in Kept(l)
  {
    if !p.Null? {
      assert Lent(u, y, p.target) in l.lent;
    }
  }

  lemma ShareKeeps(s: State, u: Owner, x: Slot)
    requires Invariant(s) && u in s.owners && s.owners[u].code == [] && x in s.owners[u].slots
    ensures SharingOk(s.owners, s.shared + {(u, x)})
  {
    assert LocalOk(s.owners[u]);
    var shared' := s.shared + {(u, x)};
    forall t | t in s.owners && s.owners[t].code != [] ensures LentOk(s.owners, shared', s.owners[t]) {
      assert LentOk(s.owners, s.shared, s.owners[t]);
      forall e | e in s.owners[t].lent ensures Lends(s.owners, shared', e) {
        assert Lends(s.owners, s.shared, e);
      }
    }
  }

  lemma UnshareKeeps(s: State, u: Owner, x: Slot)
    requires SharingOk(s.owners, s.shared) && !IsLent(s, u, x)
    ensures SharingOk(s.owners, s.shared - {(u, x)})
  {
    var shared' := s.shared - {(u, x)};
    forall t | t in s.owners && s.owners[t].code != [] ensures LentOk(s.owners, shared', s.owners[t]) {
      assert LentOk(s.owners, s.shared, s.owners[t]) && !LentFrom(s.owners[t], u, x);
      forall e | e in s.owners[t].lent ensures Lends(s.owners, shared', e) {
        assert Lends(s.owners, s.shared, e);
      }
    }
  }

  lemma ApplyKeeps(s: State, a: Action)
    requires Invariant(s) && Enabled(s, a)
    ensures Invariant(Apply(s, a))
  {
    var t := a.thread;
    match a
    case Declare(_, x) => DeclareKeeps(s, t, x);
    case Begin(_, op) => OperationKeeps(s, t, op);
    case BeginSharedCopy(_, _, _, _, _) => SharedCopyKeeps(s, a);
    case Step(_) =>
      ExecuteKeeps(s, t);
      ExecuteSharing(s, t);
    case ReadUnique(_, x) => HolderKeepsAlive(s, t, x);
    case HandOver(_, x, u) => MoveSlotKeeps(s, t, x, u);
    case TakeOut(_, o, x) => MoveSlotKeeps(s, Inside(o), x, t);
    case Share(_, u, x) =>
      ShareKeeps(s, u, x);
      NeverGone(s, u);
    case Unshare(_, u, x) =>
      UnshareKeeps(s, u, x);
      NeverGone(s, u);
  }
}
