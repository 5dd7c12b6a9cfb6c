/** The reference-counted pointer, one operation at a time
    (default/quiche_platform_impl/quiche_reference_counted_impl.h).

    Objects may have counted pointers as members, so giving up a last reference can delete one
    object after another. RefCountThreads has the same operations cut into atomic steps and
    interleaved. */
module RefCount {

  // ---------------------------------------------------------------------------------------
  // The heap as a value
  // ---------------------------------------------------------------------------------------

  datatype State = State(
    target: map<Pointer, Counted?>,   // all pointers there ever were
    gone: set<Pointer>,               // those that have been destroyed
    count: map<Counted, int>,         // all objects ever put into one
    deleted: set<Counted>,
    misused: bool)                    // something was reached after it was destroyed

  /** Everything referred to is there. */
  ghost predicate Closed(s: State) {
    && s.gone <= s.target.Keys
    && (forall p :: p in s.target && s.target[p] != null ==> s.target[p] in s.count)
    && (forall o, m :: o in s.count && m in o.members ==> m in s.target)
  }

  /** Something is reached that may have been destroyed. */
  ghost function Reaching(s: State, destroyed: bool): State {
    s.(misused := s.misused || destroyed)
  }

  /** One reference more or less. */
  ghost function Add(s: State, o: Counted, n: int): State
    requires o in s.count
  {
    s.(count := s.count[o := s.count[o] + n], misused := s.misused || o in s.deleted)
  }

  /** The last reference is given up. */
  ghost function Died(s: State, o: Counted): State
    requires o in s.count
  {
    Deleting(Add(s, o, -1), o)
  }

  ghost function Deleting(s: State, o: Counted): (r: State)
    ensures Closed(s) ==> Closed(r)
  {
    s.(deleted := s.deleted + {o})
  }

  /** A pointer is destroyed, whose destructor releases what it holds. */
  ghost function DestroyPointer(s: State, m: Pointer): (r: State)
    requires Closed(s) && m in s.target
    ensures Closed(r) && Shrinks(s, r) && Positive(r) <= Positive(s)
    decreases Positive(s), 1, 0
  {
    var r := Release(s, m);
    FewerPositive(s, r);
    r.(gone := r.gone + {m})
  }

  /** object_ = t. */
  ghost function Assigned(s: State, p: Pointer, t: Counted?): State {
    s.(target := s.target[p := t], misused := s.misused || p in s.gone)
  }

  /** RemoveReference of the pointer: a last reference deletes the object, and that destroys its
      members, the last one first. */
  ghost function Release(s: State, p: Pointer): (r: State)
    requires Closed(s) && p in s.target
    ensures Closed(r) && Shrinks(s, r)
    decreases Positive(s), 0
  {
    var s0 := Reaching(s, p in s.gone);
    if s.target[p] == null then s0
    else
      var o := s.target[p];
      var s1 := Add(s0, o, -1);
      var s2 :=
        if s1.count[o] == 0 then
          LastReference(s, o, Died(s0, o));
          DestroyMembers(Died(s0, o), o.members)
        else s1;
      Assigned(s2, p, null)
  }

  ghost function DestroyMembers(s: State, ms: seq<Pointer>): (r: State)
    requires Closed(s) && forall m :: m in ms ==> m in s.target
    ensures Closed(r) && Shrinks(s, r)
    decreases Positive(s), 2 + |ms|
  {
    if ms == [] then s
    else
      DestroyMembers(DestroyPointer(s, ms[|ms| - 1]), ms[..|ms| - 1])
  }

  lemma ReleaseSteps(s: State, p: Pointer)
    requires Closed(s) && p in s.target && s.target[p] != null
    ensures var o := s.target[p];
            var s1 := Add(Reaching(s, p in s.gone), o, -1);
            var s2 := if s1.count[o] == 0 then DestroyMembers(Deleting(s1, o), o.members) else s1;
            Release(s, p) == Assigned(s2, p, null)
  {
  }

  /** Destroying the first n members is all that is left of destroying them all. */
  ghost predicate IsLeft(s: State, v: State, ms: seq<Pointer>, n: nat) {
    && n <= |ms| && Closed(s) && Closed(v) && (forall m :: m in ms ==> m in s.target)
    && v.target.Keys == s.target.Keys && Positive(v) <= Positive(s)
    && DestroyMembers(v, ms[..n]) == DestroyMembers(s, ms)
  }

  lemma OneLess(s: State, v: State, ms: seq<Pointer>, n: nat)
    requires n < |ms| && IsLeft(s, v, ms, n + 1)
    ensures IsLeft(s, DestroyPointer(v, ms[n]), ms, n)
  {
    assert ms[..n + 1][..n] == ms[..n];
  }

  /** What releasing can change. */
  ghost predicate Shrinks(s: State, r: State) {
    && r.count.Keys == s.count.Keys && r.target.Keys == s.target.Keys
    && (forall o :: o in s.count ==> r.count[o] <= s.count[o])
    && (forall p :: p in s.target ==> r.target[p] == s.target[p] || r.target[p] == null)
    && s.gone <= r.gone && s.deleted <= r.deleted
    && (s.misused ==> r.misused)
  }

  ghost function PositiveObjects(s: State): set<Counted> {
    set o | o in s.count && s.count[o] > 0
  }

  ghost function Positive(s: State): nat {
    |PositiveObjects(s)|
  }

  lemma SubsetIsSmaller<T>(a: set<T>, b: set<T>)
    requires a <= b
    ensures |a| <= |b| && (a != b ==> |a| < |b|)
  {
    assert b == a + (b - a);
  }

  lemma FewerPositive(s: State, r: State)
    requires Shrinks(s, r)
    ensures Positive(r) <= Positive(s)
  {
    SubsetIsSmaller(PositiveObjects(r), PositiveObjects(s));
  }

  lemma LastReference(s: State, o: Counted, r: State)
    requires o in s.count && s.count[o] == 1 && r.count == s.count[o := 0]
    ensures Positive(r) < Positive(s)
  {
    assert o in PositiveObjects(s) && o !in PositiveObjects(r);
    SubsetIsSmaller(PositiveObjects(r), PositiveObjects(s));
  }

  // ---------------------------------------------------------------------------------------
  // A heap in order
  // ---------------------------------------------------------------------------------------

  /** The counted pointers to an object: those in `stale` have given up their reference. */
  ghost function Holders(s: State, stale: set<Pointer>, o: Counted): set<Pointer> {
    set p | p in s.target && p !in s.gone && p !in stale && s.target[p] == o
  }

  /** Each count is the number of pointers to the object, and exactly the objects without one
      are deleted. */
  ghost predicate CountsOk(s: State, stale: set<Pointer>) {
    forall o :: o in s.count ==>
      s.count[o] == |Holders(s, stale, o)| && (o in s.deleted <==> s.count[o] == 0)
  }

  /** The members of an object live as long as it does; `pending` are still to be destroyed. */
  ghost predicate MembersOk(s: State, pending: set<Pointer>) {
    forall o, m :: o in s.count && m in o.members ==>
      if o in s.deleted then m in s.gone || m in pending else m !in s.gone
  }

  ghost predicate Partly(s: State, stale: set<Pointer>, pending: set<Pointer>) {
    Closed(s) && CountsOk(s, stale) && MembersOk(s, pending) && s.deleted <= s.count.Keys && !s.misused
  }

  /** No pointer is a member twice. */
  ghost predicate Apart(objects: set<Counted>) {
    && (forall o :: o in objects ==> Distinct(o.members))
    && (forall o, o', m :: o in objects && o' in objects && m in o.members && m in o'.members ==> o == o')
  }

  ghost predicate Distinct(ms: seq<Pointer>) {
    forall i, j :: 0 <= i < j < |ms| ==> ms[i] != ms[j]
  }

  ghost predicate InOrder(s: State) {
    Partly(s, {}, {}) && Apart(s.count.Keys)
  }

  /** In a heap in order an object is deleted exactly when no pointer refers to it. */
  lemma DeletedIffUnheld(s: State, o: Counted)
    requires InOrder(s) && o in s.count
    ensures o in s.deleted <==> forall p :: p in s.target && p !in s.gone ==> s.target[p] != o
  {
    assert Holders(s, {}, o) == {} <==> forall p :: p in s.target && p !in s.gone ==> p !in Holders(s, {}, o);
  }

  // ---------------------------------------------------------------------------------------
  // What a release frees, without saying how
  // ---------------------------------------------------------------------------------------

  ghost predicate LivesIn(p: Pointer, objects: set<Counted>) {
    exists o :: o in objects && p in o.members
  }

  /** With every object whose pointers are all given up or live in objects of the set, the set
      has that object too. */
  ghost predicate TakesAll(s: State, p: Pointer, objects: set<Counted>) {
    forall o :: o in s.count && o !in s.deleted && OnlyHeldBy(s, p, objects, o) ==> o in objects
  }

  ghost predicate OnlyHeldBy(s: State, p: Pointer, objects: set<Counted>, o: Counted) {
    forall q :: q in s.target && q !in s.gone && s.target[q] == o ==> q == p || LivesIn(q, objects)
  }

  /** The object is in the least such set. */
  ghost predicate Frees(s: State, p: Pointer, o: Counted) {
    forall objects: set<Counted> :: objects <= s.count.Keys && TakesAll(s, p, objects) ==> o in objects
  }

  ghost function Freed(s: State, p: Pointer): set<Counted> {
    set o | o in s.count && Frees(s, p, o)
  }

  /** The pointer `q` does not live in an object that giving up `p` frees. */
  ghost predicate Survives(s: State, p: Pointer, q: Pointer) {
    q !in s.gone && !LivesIn(q, Freed(s, p))
  }

  lemma FreedTakesAll(s: State, p: Pointer)
    ensures TakesAll(s, p, Freed(s, p))
  {
    forall o | o in s.count && o !in s.deleted && OnlyHeldBy(s, p, Freed(s, p), o) ensures Frees(s, p, o) {
      forall objects: set<Counted> | objects <= s.count.Keys && TakesAll(s, p, objects) ensures o in objects {
        assert Freed(s, p) <= objects;
        forall q | q in s.target && q !in s.gone && s.target[q] == o ensures q == p || LivesIn(q, objects) {
          assert LivesIn(q, Freed(s, p)) ==> LivesIn(q, objects);
        }
        assert OnlyHeldBy(s, p, objects, o);
      }
    }
  }

  // ---------------------------------------------------------------------------------------
  // The cascade
  // ---------------------------------------------------------------------------------------

  lemma Without<T>(s: set<T>, e: T)
    requires e in s
    ensures |s| == |s - {e}| + 1
  {
    assert s == (s - {e}) + {e};
  }

  /** Where the cascade that began with giving up `p0` in `s0` has come to: it has reached only
      objects of the set and their members. */
  ghost predicate Within(s0: State, p0: Pointer, objects: set<Counted>, s: State) {
    && s.count.Keys == s0.count.Keys && s.target.Keys == s0.target.Keys
    && s0.deleted <= s.deleted && s0.gone <= s.gone
    && (forall o :: o in s.deleted && o !in s0.deleted ==> o in objects)
    && (forall q :: q in s0.target && q != p0 && !LivesIn(q, objects) ==>
          s.target[q] == s0.target[q] && (q in s.gone <==> q in s0.gone))
  }

  ghost predicate Reached(p0: Pointer, objects: set<Counted>, ps: set<Pointer>) {
    forall q :: q in ps ==> q == p0 || LivesIn(q, objects)
  }

  /** The holders after the first step of a release. */
  lemma GivenUp(s: State, stale: set<Pointer>, q: Pointer, o: Counted)
    requires q in s.target && q !in s.gone && q !in stale && s.target[q] == o && o in s.count
    ensures forall x :: x in s.count ==>
              |Holders(Add(s, o, -1), stale + {q}, x)| == |Holders(s, stale, x)| - if x == o then 1 else 0
  {
    forall x | x in s.count
      ensures |Holders(Add(s, o, -1), stale + {q}, x)| == |Holders(s, stale, x)| - if x == o then 1 else 0
    {
      var H, H' := Holders(s, stale, x), Holders(Add(s, o, -1), stale + {q}, x);
      if x == o {
        assert H' == H - {q};
        Without(H, q);
      } else {
        assert H' == H;
      }
    }
  }

  /** The holders when the pointer is null at last. */
  lemma Nulled(s: State, stale: set<Pointer>, q: Pointer, o: Counted)
    requires q in s.target
    ensures Holders(Assigned(s, q, null), stale, o) == Holders(s, stale + {q}, o)
  {
  }

  /** An object that has lost its last holder is one of the set. */
  lemma LastHolderGone(s0: State, p0: Pointer, objects: set<Counted>, s: State, stale: set<Pointer>, o: Counted)
    requires TakesAll(s0, p0, objects) && Within(s0, p0, objects, s) && Reached(p0, objects, stale)
    requires o in s.count && o !in s.deleted && Holders(s, stale, o) == {}
    ensures o in objects
  {
    forall q | q in s0.target && q !in s0.gone && s0.target[q] == o ensures q == p0 || LivesIn(q, objects) {
      assert q !in Holders(s, stale, o);
    }
    assert OnlyHeldBy(s0, p0, objects, o);
  }

  /** Pointers that have given up their reference and wait for the deletion that this caused. */
  ghost predicate Waiting(s: State, p0: Pointer, stale: set<Pointer>) {
    forall q :: q in stale ==>
      && q in s.target && q !in s.gone && s.target[q] != null && s.target[q] in s.deleted
      && (q == p0 || LivesIn(q, s.deleted))
  }

  /** A stretch of the cascade: nobody who waits is disturbed, and what goes lives in what goes. */
  ghost predicate Stretch(s: State, r: State, stale: set<Pointer>, ms: set<Pointer>)
    requires s.target.Keys == r.target.Keys && stale <= s.target.Keys
  {
    && (forall q :: q in stale ==> r.target[q] == s.target[q] && q !in r.gone)
    && (forall q :: q in r.gone && q !in s.gone ==> q in ms || LivesIn(q, r.deleted - s.deleted))
  }

  ghost predicate Goes(s0: State, p0: Pointer, objects: set<Counted>, s: State, r: State,
                       stale: set<Pointer>, pending: set<Pointer>, ms: set<Pointer>)
    requires s.target.Keys == r.target.Keys && stale <= s.target.Keys
  {
    if r.misused then LivesIn(p0, objects)
    else Partly(r, stale, pending) && Within(s0, p0, objects, r) && Stretch(s, r, stale, ms)
  }

  ghost predicate Going(s0: State, p0: Pointer, objects: set<Counted>, s: State, stale: set<Pointer>,
                        pending: set<Pointer>)
  {
    && Apart(s.count.Keys) && TakesAll(s0, p0, objects)
    && Partly(s, stale, pending) && Within(s0, p0, objects, s)
    && Reached(p0, objects, stale) && Waiting(s, p0, stale)
  }

  ghost function Elements(ms: seq<Pointer>): set<Pointer> {
    set m | m in ms
  }

  lemma {:induction false} ReleaseGoes(s0: State, p0: Pointer, objects: set<Counted>, s: State,
                                       stale: set<Pointer>, pending: set<Pointer>, q: Pointer)
    requires Going(s0, p0, objects, s, stale, pending)
    requires q in s.target && q !in s.gone && q !in stale
    requires if q == p0 then stale == {} else p0 in stale && LivesIn(q, objects) && LivesIn(q, s.deleted)
    ensures Goes(s0, p0, objects, s, Release(s, q), stale, pending, {})
    ensures !Release(s, q).misused ==> Release(s, q).target[q] == null && q !in Release(s, q).gone
    decreases Positive(s), 0, 1
  {
    var o := s.target[q];
    if o != null {
      StillHeld(s, stale, q, o);
      if s.count[o] == 1 {
        LastGoes(s0, p0, objects, s, stale, pending, q, o);
      } else {
        LivesOn(s0, p0, objects, s, stale, pending, q, o);
        Finishes(s0, p0, objects, s, Add(s, o, -1), stale, pending, q);
      }
    }
  }

  lemma {:induction false} LastGoes(s0: State, p0: Pointer, objects: set<Counted>, s: State, stale: set<Pointer>,
                                    pending: set<Pointer>, q: Pointer, o: Counted)
    requires Going(s0, p0, objects, s, stale, pending)
    requires q in s.target && q !in s.gone && q !in stale && s.target[q] == o && s.count[o] == 1
    requires if q == p0 then stale == {} else p0 in stale && LivesIn(q, objects) && LivesIn(q, s.deleted)
    ensures var s3 := Died(s, o);
            var r := Assigned(DestroyMembers(s3, o.members), q, null);
            && Goes(s0, p0, objects, s, r, stale, pending, {})
            && (!r.misused ==> q !in r.gone)
    decreases Positive(s), 0, 0
  {
    var s3 := Died(s, o);
    LastReference(s, o, s3);
    StillHeld(s, stale, q, o);
    Dies(s0, p0, objects, s, stale, pending, q, o);
    DestroyGoes(s0, p0, objects, s3, stale + {q}, pending, o, o.members);
    DeathEnds(s0, p0, objects, s, stale, pending, q, o, DestroyMembers(s3, o.members));
  }

  lemma DeathEnds(s0: State, p0: Pointer, objects: set<Counted>, s: State, stale: set<Pointer>,
                  pending: set<Pointer>, q: Pointer, o: Counted, s2: State)
    requires q in s.target && o in s.count && o !in s.deleted && q !in stale && (q == p0 || LivesIn(q, objects))
    requires stale + {q} <= s.target.Keys
    requires Shrinks(Died(s, o), s2)
    requires Goes(s0, p0, objects, Died(s, o), s2, stale + {q}, pending,
                  Elements(o.members))
    ensures Goes(s0, p0, objects, s, Assigned(s2, q, null), stale, pending, {})
    ensures !Assigned(s2, q, null).misused ==> q !in s2.gone
  {
    if !s2.misused {
      DeathIsStretch(s, Died(s, o), s2, stale, q, o);
      Finishes(s0, p0, objects, s, s2, stale, pending, q);
    }
  }

  lemma StillHeld(s: State, stale: set<Pointer>, q: Pointer, o: Counted)
    requires CountsOk(s, stale) && q in s.target && q !in s.gone && q !in stale && s.target[q] == o && o in s.count
    ensures s.count[o] >= 1 && o !in s.deleted
  {
    assert q in Holders(s, stale, o);
  }

  /** A reference that is not the last. */
  lemma LivesOn(s0: State, p0: Pointer, objects: set<Counted>, s: State, stale: set<Pointer>,
                pending: set<Pointer>, q: Pointer, o: Counted)
    requires Partly(s, stale, pending) && Within(s0, p0, objects, s)
    requires q in s.target && q !in s.gone && q !in stale && s.target[q] == o && s.count[o] > 1
    ensures Partly(Add(s, o, -1), stale + {q}, pending) && Within(s0, p0, objects, Add(s, o, -1))
  {
    StillHeld(s, stale, q, o);
    GivenUp(s, stale, q, o);
    assert CountsOk(Add(s, o, -1), stale + {q});
  }

  /** The last reference: the object is deleted, and its members are to be destroyed. */
  lemma Dies(s0: State, p0: Pointer, objects: set<Counted>, s: State, stale: set<Pointer>,
             pending: set<Pointer>, q: Pointer, o: Counted)
    requires Going(s0, p0, objects, s, stale, pending)
    requires q in s.target && q !in s.gone && q !in stale && s.target[q] == o && s.count[o] == 1
    requires if q == p0 then stale == {} else p0 in stale && LivesIn(q, objects) && LivesIn(q, s.deleted)
    ensures var s3 := Died(s, o);
            && o in objects
            && Going(s0, p0, objects, s3, stale + {q}, pending + Elements(o.members))
            && forall m :: m in o.members ==> m !in s3.gone && (m in stale + {q} ==> m == p0)
  {
    StillHeld(s, stale, q, o);
    DiesPartly(s, stale, pending, q, o);
    LastHolderGone(s0, p0, objects, Add(s, o, -1), stale + {q}, o);
    NextWaits(s, p0, stale, q, o);
    MembersDoNotWait(s, p0, stale, pending, q, o);
  }

  lemma DiesPartly(s: State, stale: set<Pointer>, pending: set<Pointer>, q: Pointer, o: Counted)
    requires Partly(s, stale, pending) && o in s.count
    requires q in s.target && q !in s.gone && q !in stale && s.target[q] == o && s.count[o] == 1
    ensures Partly(Died(s, o), stale + {q}, pending + Elements(o.members))
    ensures Holders(Add(s, o, -1), stale + {q}, o) == {}
  {
    StillHeld(s, stale, q, o);
    GivenUp(s, stale, q, o);
    DeletedNow(s, stale + {q}, pending, o);
  }

  lemma NextWaits(s: State, p0: Pointer, stale: set<Pointer>, q: Pointer, o: Counted)
    requires Waiting(s, p0, stale) && o in s.count
    requires q in s.target && q !in s.gone && s.target[q] == o && (q == p0 || LivesIn(q, s.deleted))
    ensures Waiting(Died(s, o), p0, stale + {q})
  {
    forall x | x in stale + {q} ensures x == p0 || LivesIn(x, s.deleted + {o}) {
      assert LivesIn(x, s.deleted) ==> LivesIn(x, s.deleted + {o});
    }
  }

  lemma MembersDoNotWait(s: State, p0: Pointer, stale: set<Pointer>, pending: set<Pointer>, q: Pointer, o: Counted)
    requires Apart(s.count.Keys) && MembersOk(s, pending) && s.deleted <= s.count.Keys && Waiting(s, p0, stale)
    requires o in s.count && o !in s.deleted && (q == p0 || LivesIn(q, s.deleted))
    ensures forall m :: m in o.members ==> m !in s.gone && (m in stale + {q} ==> m == p0)
  {
    forall m | m in o.members && m in stale + {q} ensures m == p0 {
      assert !LivesIn(m, s.deleted);
    }
  }

  lemma DeletedNow(s: State, stale: set<Pointer>, pending: set<Pointer>, o: Counted)
    requires Closed(s) && MembersOk(s, pending) && s.deleted <= s.count.Keys && !s.misused
    requires o in s.count && o !in s.deleted && s.count[o] == 1
    requires forall x :: x in s.count ==>
               |Holders(Add(s, o, -1), stale, x)| == s.count[x] - if x == o then 1 else 0
    requires forall x :: x in s.count ==> (x in s.deleted <==> s.count[x] == 0)
    ensures Partly(Died(s, o), stale, pending + Elements(o.members))
  {
    var s1 := Add(s, o, -1);
    var s3 := s1.(deleted := s.deleted + {o});
    assert forall x :: x in s.count ==> Holders(s3, stale, x) == Holders(s1, stale, x);
  }

  lemma DeathIsStretch(s: State, s3: State, r: State, stale: set<Pointer>, q: Pointer, o: Counted)
    requires s3.target == s.target && s3.gone == s.gone && s3.deleted == s.deleted + {o} && o !in s.deleted
    requires s.target.Keys == r.target.Keys && stale + {q} <= s.target.Keys && s3.deleted <= r.deleted
    requires Stretch(s3, r, stale + {q}, Elements(o.members))
    ensures Stretch(s, r, stale, {}) && q !in r.gone
  {
    forall x | x in r.gone && x !in s.gone ensures LivesIn(x, r.deleted - s.deleted) {
      if x in o.members {
        assert o in r.deleted - s.deleted;
      } else {
        var o' :| o' in r.deleted - s3.deleted && x in o'.members;
        assert o' in r.deleted - s.deleted;
      }
    }
  }

  /** The pointer is null at last. */
  lemma Finishes(s0: State, p0: Pointer, objects: set<Counted>, s: State, s2: State, stale: set<Pointer>,
                 pending: set<Pointer>, q: Pointer)
    requires Partly(s2, stale + {q}, pending) && Within(s0, p0, objects, s2)
    requires s.target.Keys == s2.target.Keys && stale <= s.target.Keys && Stretch(s, s2, stale, {})
    requires q in s2.target && q !in s2.gone && q !in stale && (q == p0 || LivesIn(q, objects))
    ensures Goes(s0, p0, objects, s, Assigned(s2, q, null), stale, pending, {})
  {
    forall o | o in s2.count ensures Holders(Assigned(s2, q, null), stale, o) == Holders(s2, stale + {q}, o) {
      Nulled(s2, stale, q, o);
    }
  }

  lemma {:induction false} DestroyGoes(s0: State, p0: Pointer, objects: set<Counted>, s: State,
                                       stale: set<Pointer>, pending: set<Pointer>, o: Counted, ms: seq<Pointer>)
    requires Going(s0, p0, objects, s, stale, pending + Elements(ms))
    requires o in s.count && o in objects && o in s.deleted && p0 in stale
    requires forall m :: m in ms ==> m in o.members && m !in s.gone && (m in stale ==> m == p0)
    requires Distinct(ms)
    ensures Goes(s0, p0, objects, s, DestroyMembers(s, ms), stale, pending, Elements(ms))
    decreases Positive(s), 2 + |ms|, 0
  {
    if ms == [] {
      assert Elements(ms) == {} && pending + {} == pending;
    } else {
      var m, front := ms[|ms| - 1], ms[..|ms| - 1];
      var s1, s2 := Release(s, m), DestroyPointer(s, m);
      assert m in ms && LivesIn(m, objects) && LivesIn(m, s.deleted);
      if m in stale {
        assert s1.misused;
      } else {
        ReleaseGoes(s0, p0, objects, s, stale, pending + Elements(ms), m);
        if !s1.misused {
          MemberGone(s0, p0, objects, s, s1, stale, pending, o, ms);
          DestroyGoes(s0, p0, objects, s2, stale, pending, o, front);
          MembersGone(s0, p0, objects, s, s1, DestroyMembers(s2, front), stale, pending, ms);
        }
      }
    }
  }

  lemma MembersGone(s0: State, p0: Pointer, objects: set<Counted>, s: State, s1: State, r: State,
                    stale: set<Pointer>, pending: set<Pointer>, ms: seq<Pointer>)
    requires ms != [] && s.target.Keys == s1.target.Keys == r.target.Keys && stale <= s.target.Keys
    requires s.deleted <= s1.deleted <= r.deleted && Stretch(s, s1, stale, {})
    requires Goes(s0, p0, objects, s1.(gone := s1.gone + {ms[|ms| - 1]}), r, stale, pending, Elements(ms[..|ms| - 1]))
    ensures Goes(s0, p0, objects, s, r, stale, pending, Elements(ms))
  {
    if !r.misused {
      StretchOn(s, s1, r, stale, ms);
    }
  }

  /** After the last of the members has been destroyed. */
  lemma MemberGone(s0: State, p0: Pointer, objects: set<Counted>, s: State, s1: State,
                   stale: set<Pointer>, pending: set<Pointer>, o: Counted, ms: seq<Pointer>)
    requires Going(s0, p0, objects, s, stale, pending + Elements(ms)) && ms != []
    requires o in s.count && o in objects && o in s.deleted && Distinct(ms)
    requires forall m :: m in ms ==> m in o.members && m !in s.gone && (m in stale ==> m == p0)
    requires ms[|ms| - 1] !in stale && Shrinks(s, s1) && !s1.misused && s1.target[ms[|ms| - 1]] == null
    requires Goes(s0, p0, objects, s, s1, stale, pending + Elements(ms), {})
    ensures var s2 := s1.(gone := s1.gone + {ms[|ms| - 1]});
            && Going(s0, p0, objects, s2, stale, pending + Elements(ms[..|ms| - 1]))
            && forall m :: m in ms[..|ms| - 1] ==> m !in s2.gone
    ensures Distinct(ms[..|ms| - 1])
  {
    var m, front := ms[|ms| - 1], ms[..|ms| - 1];
    var s2 := s1.(gone := s1.gone + {m});
    assert ms == front + [m];
    OneMemberLess(s1, stale, pending, ms);
    FrontStays(s0, p0, objects, s, s1, stale, pending, o, ms);
    assert LivesIn(m, objects);
    forall q | q in stale ensures q == p0 || LivesIn(q, s2.deleted) {
      assert LivesIn(q, s.deleted) ==> LivesIn(q, s2.deleted);
    }
  }

  lemma FrontStays(s0: State, p0: Pointer, objects: set<Counted>, s: State, s1: State,
                   stale: set<Pointer>, pending: set<Pointer>, o: Counted, ms: seq<Pointer>)
    requires Going(s0, p0, objects, s, stale, pending + Elements(ms)) && ms != []
    requires o in s.count && o in objects && o in s.deleted && Distinct(ms)
    requires forall m :: m in ms ==> m in o.members && m !in s.gone
    requires Shrinks(s, s1) && !s1.misused && Goes(s0, p0, objects, s, s1, stale, pending + Elements(ms), {})
    ensures forall x :: x in ms[..|ms| - 1] ==> x !in s1.gone && x != ms[|ms| - 1]
    ensures Distinct(ms[..|ms| - 1])
  {
    var front := ms[..|ms| - 1];
    assert ms == front + [ms[|ms| - 1]];
    forall x | x in front ensures x !in s1.gone {
      assert x in ms && !LivesIn(x, s1.deleted - s.deleted);
    }
  }

  lemma OneMemberLess(s: State, stale: set<Pointer>, pending: set<Pointer>, ms: seq<Pointer>)
    requires ms != [] && Partly(s, stale, pending + Elements(ms))
    requires ms[|ms| - 1] in s.target && s.target[ms[|ms| - 1]] == null
    requires forall o :: o in s.count && o !in s.deleted ==> ms[|ms| - 1] !in o.members
    ensures Partly(s.(gone := s.gone + {ms[|ms| - 1]}), stale, pending + Elements(ms[..|ms| - 1]))
  {
    var m, front := ms[|ms| - 1], ms[..|ms| - 1];
    var s2 := s.(gone := s.gone + {m});
    assert ms == front + [m];
    assert Elements(ms) == Elements(front) + {m};
    forall x | x in s.count ensures Holders(s2, stale, x) == Holders(s, stale, x) {
    }
  }

  lemma StretchOn(s: State, s1: State, r: State, stale: set<Pointer>, ms: seq<Pointer>)
    requires ms != [] && s.target.Keys == s1.target.Keys == r.target.Keys && stale <= s.target.Keys
    requires s.deleted <= s1.deleted <= r.deleted && Stretch(s, s1, stale, {})
    requires Stretch(s1.(gone := s1.gone + {ms[|ms| - 1]}), r, stale, Elements(ms[..|ms| - 1]))
    ensures Stretch(s, r, stale, Elements(ms))
  {
    forall q | q in r.gone && q !in s.gone ensures q in Elements(ms) || LivesIn(q, r.deleted - s.deleted) {
      if q in s1.gone {
        var o :| o in s1.deleted - s.deleted && q in o.members;
        assert o in r.deleted - s.deleted;
      } else if q !in Elements(ms) {
        var o :| o in r.deleted - s1.deleted && q in o.members;
        assert o in r.deleted - s.deleted;
      }
    }
  }

  // ---------------------------------------------------------------------------------------
  // What a release does
  // ---------------------------------------------------------------------------------------

  /** The objects that a cascade has deleted are a set that takes all. */
  lemma DeletedTakesAll(s: State, p: Pointer, r: State)
    requires Partly(r, {}, {}) && Shrinks(s, r) && p in s.target && r.target[p] == null && p !in r.gone
    requires forall q :: q in r.gone && q !in s.gone ==> LivesIn(q, r.deleted - s.deleted)
    ensures TakesAll(s, p, r.deleted - s.deleted)
  {
    var objects := r.deleted - s.deleted;
    forall o | o in s.count && o !in s.deleted && OnlyHeldBy(s, p, objects, o) ensures o in objects {
      forall q | q in s.target ensures q !in Holders(r, {}, o) {
        assert LivesIn(q, objects) ==> q in r.gone;
      }
      assert Holders(r, {}, o) == {};
    }
  }

  lemma FreedIsLeast(s: State, p: Pointer, objects: set<Counted>)
    requires objects <= s.count.Keys && TakesAll(s, p, objects)
    ensures Freed(s, p) <= objects
  {
  }

  lemma ReleaseIsUsed(s: State, p: Pointer)
    requires InOrder(s) && p in s.target && p !in s.gone
    ensures var r := Release(s, p);
            if r.misused then LivesIn(p, Freed(s, p))
            else
              && Partly(r, {}, {}) && Within(s, p, Freed(s, p), r) && r.target[p] == null && p !in r.gone
              && Freed(s, p) == r.deleted - s.deleted
              && forall q :: q in r.gone && q !in s.gone ==> LivesIn(q, Freed(s, p))
  {
    var r, objects := Release(s, p), Freed(s, p);
    FreedTakesAll(s, p);
    ReleaseGoes(s, p, objects, s, {}, {}, p);
    if !r.misused {
      assert Stretch(s, r, {}, {});
      DeletedTakesAll(s, p, r);
      FreedIsLeast(s, p, r.deleted - s.deleted);
    }
  }

  /** Giving up a pointer leaves the heap in order exactly if the pointer does not live in an
      object that this frees; and then exactly the objects of the least set are deleted, their
      members are destroyed, and no other pointer is touched. */
  lemma ReleaseFrees(s: State, p: Pointer)
    requires InOrder(s) && p in s.target && p !in s.gone
    ensures var r := Release(s, p);
            && (InOrder(r) <==> Survives(s, p, p)) && (r.misused <==> !Survives(s, p, p))
            && (Survives(s, p, p) ==>
                  && r.deleted == s.deleted + Freed(s, p) && r.target[p] == null
                  && (forall q :: q in s.target ==> (q !in r.gone <==> Survives(s, p, q)))
                  && (forall q :: q in s.target && q != p && Survives(s, p, q) ==> r.target[q] == s.target[q]))
  {
    ReleaseIsUsed(s, p);
    var r := Release(s, p);
    if !r.misused {
      forall q | LivesIn(q, Freed(s, p)) ensures q in r.gone {
        MembersGo(r, Freed(s, p), q);
      }
    }
  }

  /** The members of deleted objects are destroyed. */
  lemma MembersGo(r: State, objects: set<Counted>, q: Pointer)
    requires MembersOk(r, {}) && objects <= r.deleted <= r.count.Keys && LivesIn(q, objects)
    ensures q in r.gone
  {
  }

  // ---------------------------------------------------------------------------------------
  // The assignments
  // ---------------------------------------------------------------------------------------

  ghost function ObjectAssigned(s: State, p: Pointer, t: Counted?): (r: State)
    requires Closed(s) && p in s.target && (t != null ==> t in s.count)
    ensures Closed(r) && r.target.Keys == s.target.Keys && r.count.Keys == s.count.Keys
    ensures r.target[p] == t && (s.misused ==> r.misused)
  {
    Assigned(Release(s, p), p, t)
  }

  ghost function Referenced(s: State, p: Pointer): (r: State)
    requires Closed(s) && p in s.target
    ensures Closed(r) && r.target == s.target && r.count.Keys == s.count.Keys && (s.misused ==> r.misused)
  {
    var s0 := Reaching(s, p in s.gone);
    if s.target[p] == null then s0 else Add(s0, s.target[p], 1)
  }

  ghost function CopyAssigned(s: State, p: Pointer, q: Pointer): (r: State)
    requires Closed(s) && p in s.target && q in s.target
    ensures Closed(r) && r.target.Keys == s.target.Keys && r.target[p] == s.target[q]
  {
    Referenced(ObjectAssigned(s, p, s.target[q]), p)
  }

  ghost function MoveAssigned(s: State, p: Pointer, q: Pointer): (r: State)
    requires Closed(s) && p in s.target && q in s.target
  {
    Assigned(ObjectAssigned(s, p, s.target[q]), q, null)
  }

  ghost function ConvertingMoveAssigned(s: State, p: Pointer, q: Pointer): (r: State)
    requires Closed(s) && p in s.target && q in s.target
  {
    ObjectAssigned(CopyAssigned(s, p, q), q, null)
  }

  /** From a raw pointer to a new object. */
  ghost function RawAssigned(s: State, p: Pointer, o: Counted): (r: State)
    requires Closed(s) && p in s.target
  {
    Assigned(WithObject(Release(s, p), o), p, o)
  }

  ghost function WithObject(s: State, o: Counted): State {
    s.(count := s.count[o := 1])
  }

  /** The members of a new object are pointers that are there and no object's members yet. */
  ghost predicate IsNew(s: State, o: Counted) {
    && o !in s.count && o !in s.deleted && Distinct(o.members)
    && forall m :: m in o.members ==> m in s.target && m !in s.gone && !LivesIn(m, s.count.Keys)
  }

  /** A new pointer. */
  ghost function WithPointer(s: State, p: Pointer, t: Counted?): (r: State)
    requires Closed(s) && (t != null ==> t in s.count)
    ensures Closed(r)
  {
    s.(target := s.target[p := t])
  }

  ghost function CopyConstructed(s: State, p: Pointer, q: Pointer): State
    requires Closed(s) && q in s.target
  {
    Referenced(WithPointer(s, p, s.target[q]), p)
  }

  ghost function MoveConstructed(s: State, p: Pointer, q: Pointer): State
    requires Closed(s) && q in s.target
  {
    Assigned(WithPointer(s, p, s.target[q]), q, null)
  }

  /** Some other pointer that survives the release still holds the object. */
  ghost predicate HeldAfter(s: State, p: Pointer, o: Counted) {
    exists q :: q in s.target && q != p && Survives(s, p, q) && s.target[q] == o
  }

  /** What copy assignment needs: the pointer assigned to survives the release of what it held,
      and so does some other pointer to the new object, if there is one. */
  ghost predicate CopyIsSafe(s: State, p: Pointer, q: Pointer)
    requires q in s.target
  {
    Survives(s, p, p) && (s.target[q] == null || HeldAfter(s, p, s.target[q]))
  }

  /** What move assignment needs: both pointers survive that release. */
  ghost predicate MoveIsSafe(s: State, p: Pointer, q: Pointer) {
    Survives(s, p, p) && Survives(s, p, q)
  }

  lemma DeletedUnlessHeld(s: State, p: Pointer, o: Counted)
    requires InOrder(s) && p in s.target && p !in s.gone && Survives(s, p, p) && o in s.count
    ensures o in Release(s, p).deleted <==> !HeldAfter(s, p, o)
  {
    ReleaseFrees(s, p);
    var r := Release(s, p);
    forall q | q in s.target ensures q in Holders(r, {}, o) <==> q != p && Survives(s, p, q) && s.target[q] == o {
    }
    if HeldAfter(s, p, o) {
      var q :| q in s.target && q != p && Survives(s, p, q) && s.target[q] == o;
      assert q in Holders(r, {}, o);
    } else {
      assert Holders(r, {}, o) == {};
    }
  }

  /** One pointer more to an object that is not deleted, and counted. */
  lemma OnePointerMore(s: State, p: Pointer, o: Counted)
    requires InOrder(s) && p in s.target && p !in s.gone && s.target[p] == null && o in s.count && o !in s.deleted
    ensures InOrder(Add(Assigned(s, p, o), o, 1))
  {
    var r := Add(Assigned(s, p, o), o, 1);
    forall x | x in s.count ensures r.count[x] == |Holders(r, {}, x)| {
      OneHolderMore(s, p, o, x);
    }
  }

  lemma OneHolderMore(s: State, p: Pointer, o: Counted, x: Counted)
    requires p in s.target && p !in s.gone && s.target[p] == null && o in s.count
    ensures |Holders(Add(Assigned(s, p, o), o, 1), {}, x)| == |Holders(s, {}, x)| + if x == o then 1 else 0
  {
    var H, H' := Holders(s, {}, x), Holders(Add(Assigned(s, p, o), o, 1), {}, x);
    if x == o {
      assert H == H' - {p};
      Without(H', p);
    } else {
      assert H == H';
    }
  }

  /** A reference that changes hands. */
  lemma Handed(s: State, p: Pointer, q: Pointer)
    requires InOrder(s) && p in s.target && p !in s.gone && s.target[p] == null && q in s.target && q !in s.gone
    ensures InOrder(Assigned(Assigned(s, p, s.target[q]), q, null))
  {
    var r := Assigned(Assigned(s, p, s.target[q]), q, null);
    forall x | x in s.count ensures |Holders(r, {}, x)| == |Holders(s, {}, x)| {
      HandedOne(s, p, q, x);
    }
  }

  lemma HandedOne(s: State, p: Pointer, q: Pointer, o: Counted)
    requires p in s.target && p !in s.gone && s.target[p] == null && q in s.target && q !in s.gone
    ensures |Holders(Assigned(Assigned(s, p, s.target[q]), q, null), {}, o)| == |Holders(s, {}, o)|
  {
    var r := Assigned(Assigned(s, p, s.target[q]), q, null);
    if p == q {
      assert r.target == s.target;
      assert Holders(r, {}, o) == Holders(s, {}, o);
    } else {
      HandedApart(s, r, p, q, o);
    }
  }

  lemma HandedApart(s: State, r: State, p: Pointer, q: Pointer, o: Counted)
    requires p in s.target && p !in s.gone && s.target[p] == null && q in s.target && q !in s.gone && p != q
    requires r.target.Keys == s.target.Keys && r.gone == s.gone && r.target[p] == s.target[q] && r.target[q] == null
    requires forall x :: x in s.target && x != p && x != q ==> r.target[x] == s.target[x]
    ensures |Holders(r, {}, o)| == |Holders(s, {}, o)|
  {
    var H, H' := Holders(s, {}, o), Holders(r, {}, o);
    forall x ensures x in H' <==> if o == s.target[q] then x == p || (x in H && x != q) else x in H {
    }
    if o == s.target[q] {
      Swapped(H, H', p, q);
    } else {
      assert H == H';
    }
  }

  lemma Swapped<T>(s: set<T>, s': set<T>, p: T, q: T)
    requires p !in s && q in s && forall x :: x in s' <==> x == p || (x in s && x != q)
    ensures |s'| == |s|
  {
    assert s' - {p} == s - {q};
    Without(s, q);
    Without(s', p);
  }

  /** Copy assignment leaves the heap in order exactly if it is safe. */
  lemma CopyKeepsOrderIff(s: State, p: Pointer, q: Pointer)
    requires InOrder(s) && p in s.target && p !in s.gone && q in s.target && q !in s.gone
    ensures InOrder(CopyAssigned(s, p, q)) <==> CopyIsSafe(s, p, q)
    ensures !InOrder(CopyAssigned(s, p, q)) ==> CopyAssigned(s, p, q).misused
  {
    ReleaseFrees(s, p);
    var t := s.target[q];
    if Survives(s, p, p) {
      if t != null {
        DeletedUnlessHeld(s, p, t);
      }
      PointedAnew(Release(s, p), p, t);
    }
  }

  /** A null pointer is pointed to an object, which is counted. */
  lemma PointedAnew(s: State, p: Pointer, t: Counted?)
    requires InOrder(s) && p in s.target && p !in s.gone && s.target[p] == null && (t != null ==> t in s.count)
    ensures var r := Referenced(Assigned(s, p, t), p);
            if t == null || t !in s.deleted then InOrder(r) else r.misused
  {
    if t == null {
      assert Assigned(s, p, null) == s;
    } else if t !in s.deleted {
      OnePointerMore(s, p, t);
    }
  }

  /** And move assignment exactly if that is safe. */
  lemma MoveKeepsOrderIff(s: State, p: Pointer, q: Pointer)
    requires InOrder(s) && p in s.target && p !in s.gone && q in s.target && q !in s.gone
    ensures InOrder(MoveAssigned(s, p, q)) <==> MoveIsSafe(s, p, q)
  {
    if MoveIsSafe(s, p, q) {
      SafeMove(s, p, q);
    } else {
      MoveMisuses(s, p, q);
    }
  }

  lemma SafeMove(s: State, p: Pointer, q: Pointer)
    requires InOrder(s) && p in s.target && p !in s.gone && q in s.target && q !in s.gone && MoveIsSafe(s, p, q)
    ensures InOrder(MoveAssigned(s, p, q))
  {
    ReleaseFrees(s, p);
    SecondHalf(s, Release(s, p), p, q);
    if p != q {
      Handed(Release(s, p), p, q);
    }
  }

  /** What a move does once the old object has been released. */
  lemma SecondHalf(s: State, r: State, p: Pointer, q: Pointer)
    requires Closed(s) && p in s.target && q in s.target && r == Release(s, p) && r.target[p] == null && p !in r.gone
    requires q != p ==> r.target[q] == s.target[q]
    ensures MoveAssigned(s, p, q) == if p == q then r else Assigned(Assigned(r, p, r.target[q]), q, null)
  {
    assert p == q ==> r.target[p := s.target[q]][p := null] == r.target;
  }

  lemma MoveMisuses(s: State, p: Pointer, q: Pointer)
    requires InOrder(s) && p in s.target && p !in s.gone && q in s.target && q !in s.gone && !MoveIsSafe(s, p, q)
    ensures MoveAssigned(s, p, q).misused
  {
    ReleaseFrees(s, p);
    var r := Release(s, p);
    assert r.misused || q in r.gone;
  }

  /** The same for converting move assignment, which adds a reference and gives one up. */
  lemma ConvertingMoveKeepsOrderIff(s: State, p: Pointer, q: Pointer)
    requires InOrder(s) && p in s.target && p !in s.gone && q in s.target && q !in s.gone && p != q
    ensures InOrder(ConvertingMoveAssigned(s, p, q)) <==> MoveIsSafe(s, p, q)
    ensures InOrder(ConvertingMoveAssigned(s, p, q)) ==> ConvertingMoveAssigned(s, p, q) == MoveAssigned(s, p, q)
  {
    MoveKeepsOrderIff(s, p, q);
    if MoveIsSafe(s, p, q) {
      ConvertingMoveIsMove(s, p, q);
    } else {
      ConvertingMoveMisuses(s, p, q);
    }
  }

  lemma ConvertingMoveIsMove(s: State, p: Pointer, q: Pointer)
    requires InOrder(s) && p in s.target && p !in s.gone && q in s.target && q !in s.gone && p != q
    requires MoveIsSafe(s, p, q)
    ensures ConvertingMoveAssigned(s, p, q) == MoveAssigned(s, p, q)
  {
    ReleaseFrees(s, p);
    TakesAndGivesBack(Release(s, p), p, q);
  }

  lemma TakesAndGivesBack(s: State, p: Pointer, q: Pointer)
    requires InOrder(s) && p in s.target && p !in s.gone && s.target[p] == null
    requires q in s.target && q !in s.gone && p != q
    ensures var a := Assigned(s, p, s.target[q]);
            ObjectAssigned(Referenced(a, p), q, null) == Assigned(a, q, null)
  {
    var t := s.target[q];
    if t != null {
      StillHeld(s, {}, q, t);
      GivesBack(Assigned(s, p, t), q, t);
    }
  }

  lemma ConvertingMoveMisuses(s: State, p: Pointer, q: Pointer)
    requires InOrder(s) && p in s.target && p !in s.gone && q in s.target && q !in s.gone && p != q
    requires !MoveIsSafe(s, p, q)
    ensures ConvertingMoveAssigned(s, p, q).misused
  {
    ReleaseFrees(s, p);
    var s1 := CopyAssigned(s, p, q);
    if Survives(s, p, p) {
      assert q in s1.gone;
    } else {
      assert s1.misused;
    }
  }

  /** A reference added and given up again. */
  lemma GivesBack(s: State, q: Pointer, o: Counted)
    requires Closed(s) && q in s.target && q !in s.gone && s.target[q] == o && o in s.count && o !in s.deleted
    requires s.count[o] != 0
    ensures Release(Add(s, o, 1), q) == Assigned(s, q, null)
  {
    assert Add(Add(s, o, 1), o, -1).count == s.count;
  }

  lemma NullKeepsOrderIff(s: State, p: Pointer)
    requires InOrder(s) && p in s.target && p !in s.gone
    ensures InOrder(ObjectAssigned(s, p, null)) <==> Survives(s, p, p)
  {
    ReleaseFrees(s, p);
    assert !Release(s, p).misused ==> Assigned(Release(s, p), p, null) == Release(s, p);
  }

  lemma RawKeepsOrderIff(s: State, p: Pointer, o: Counted)
    requires InOrder(s) && p in s.target && p !in s.gone && IsNew(s, o)
    ensures InOrder(RawAssigned(s, p, o)) <==> Survives(s, p, p)
  {
    ReleaseFrees(s, p);
    var r := Release(s, p);
    if Survives(s, p, p) {
      forall m | m in o.members ensures m !in r.gone {
        assert LivesIn(m, Freed(s, p)) ==> LivesIn(m, s.count.Keys);
      }
      NewObject(r, p, o);
    }
  }

  /** A new object and its first pointer. */
  lemma NewObject(s: State, p: Pointer, o: Counted)
    requires InOrder(s) && p in s.target && p !in s.gone && s.target[p] == null && IsNew(s, o)
    ensures InOrder(Assigned(WithObject(s, o), p, o))
  {
    var r := Assigned(WithObject(s, o), p, o);
    forall x | x in s.count ensures Holders(r, {}, x) == Holders(s, {}, x) {
    }
    assert Holders(r, {}, o) == {p};
    forall o', m | o' in s.count && m in o'.members ensures m !in o.members {
      assert LivesIn(m, s.count.Keys);
    }
  }

  lemma NewPointer(s: State, p: Pointer)
    requires InOrder(s) && p !in s.target
    ensures InOrder(WithPointer(s, p, null))
  {
    forall x | x in s.count ensures Holders(WithPointer(s, p, null), {}, x) == Holders(s, {}, x) {
    }
  }

  lemma PointerSet(s: State, p: Pointer, t: Counted?)
    requires Closed(s) && p !in s.target && (t != null ==> t in s.count)
    ensures WithPointer(s, p, t) == Assigned(WithPointer(s, p, null), p, t)
  {
    assert s.target[p := null][p := t] == s.target[p := t];
  }

  lemma CopyConstructionKeepsOrder(s: State, p: Pointer, q: Pointer)
    requires InOrder(s) && p !in s.target && q in s.target && q !in s.gone
    ensures InOrder(CopyConstructed(s, p, q))
  {
    var t := s.target[q];
    NewPointer(s, p);
    PointerSet(s, p, t);
    if t != null {
      StillHeld(s, {}, q, t);
      OnePointerMore(WithPointer(s, p, null), p, t);
    }
  }

  lemma MoveConstructionKeepsOrder(s: State, p: Pointer, q: Pointer)
    requires InOrder(s) && p !in s.target && q in s.target && q !in s.gone
    ensures InOrder(MoveConstructed(s, p, q))
  {
    NewPointer(s, p);
    PointerSet(s, p, s.target[q]);
    Handed(WithPointer(s, p, null), p, q);
  }

  /** The converting move constructor adds a reference and gives one up. */
  lemma ConvertingMoveConstruction(s: State, p: Pointer, q: Pointer)
    requires InOrder(s) && p !in s.target && q in s.target && q !in s.gone
    ensures ObjectAssigned(CopyConstructed(s, p, q), q, null) == MoveConstructed(s, p, q)
  {
    var t := s.target[q];
    if t != null {
      StillHeld(s, {}, q, t);
      GivesBack(WithPointer(s, p, t), q, t);
    }
  }

  /** A pointer that is no member can always be destroyed. */
  lemma DestroyKeepsOrder(s: State, p: Pointer)
    requires InOrder(s) && p in s.target && p !in s.gone && !LivesIn(p, s.count.Keys)
    ensures InOrder(DestroyPointer(s, p))
  {
    assert LivesIn(p, Freed(s, p)) ==> LivesIn(p, s.count.Keys);
    ReleaseFrees(s, p);
    var r := Release(s, p);
    forall x | x in s.count ensures Holders(DestroyPointer(s, p), {}, x) == Holders(r, {}, x) {
    }
    assert forall o :: o in s.count && p in o.members ==> LivesIn(p, s.count.Keys);
  }

  /** head = head->next and head = std::move(head->next), when head holds the last reference to
      a node whose member holds the last reference to the next one. */
  lemma NextOfLast(s: State, p: Pointer, q: Pointer, o: Counted, t: Counted)
    requires InOrder(s) && p in s.target && p !in s.gone && q in s.target
    requires o in s.count && s.target[p] == o && s.count[o] == 1 && q in o.members
    requires t in s.count && s.target[q] == t && s.count[t] == 1
    ensures !InOrder(CopyAssigned(s, p, q)) && !InOrder(MoveAssigned(s, p, q))
  {
    assert q !in s.gone;
    OnlyHolder(s, p, o);
    OnlyHolder(s, q, t);
    FreedTakesAll(s, p);
    assert OnlyHeldBy(s, p, Freed(s, p), o);
    assert LivesIn(q, Freed(s, p));
    assert !HeldAfter(s, p, t);
    CopyKeepsOrderIff(s, p, q);
    MoveKeepsOrderIff(s, p, q);
  }

  lemma OnlyHolder(s: State, p: Pointer, o: Counted)
    requires InOrder(s) && p in s.target && p !in s.gone && s.target[p] == o && o in s.count && s.count[o] == 1
    ensures o !in s.deleted && forall q :: q in s.target && q !in s.gone && s.target[q] == o ==> q == p
  {
    var H := Holders(s, {}, o);
    assert p in H;
    Without(H, p);
    assert forall q :: q in s.target && q !in s.gone && s.target[q] == o ==> q in H;
  }

  // ---------------------------------------------------------------------------------------
  // The classes
  // ---------------------------------------------------------------------------------------

  /** All pointers and objects there ever were. */
  class Heap {
    ghost var pointers: set<Pointer>
    ghost var gone: set<Pointer>
    ghost var objects: set<Counted>
    ghost var misused: bool

    ghost function View(): State
      reads this, pointers, objects
    {
      State(map p | p in pointers :: p.target, gone, map o | o in objects :: o.refCount,
            (set o | o in objects && o.deleted), misused)
    }

    ghost predicate Valid()
      reads this, pointers, objects
    {
      InOrder(View())
    }

    /** A pointer that is there. */
    ghost predicate Has(p: Pointer)
      reads this
    {
      p in pointers && p !in gone
    }

    /** A new pointer, that may hold something already. */
    ghost method Join(p: Pointer)
      requires p !in pointers && Closed(View()) && (p.target != null ==> p.target in objects)
      modifies this`pointers
      ensures pointers == old(pointers) + {p}
      ensures View() == WithPointer(old(View()), p, p.target)
    {
      ghost var s := View();
      pointers := pointers + {p};
      assert View().target == s.target[p := p.target];
      assert View().count == s.count;
    }

    /** A new object. */
    ghost method Adopt(o: Counted)
      requires o !in objects && o.refCount == 1 && !o.deleted
      modifies this`objects
      ensures objects == old(objects) + {o}
      ensures View() == WithObject(old(View()), o)
    {
      ghost var s := View();
      objects := objects + {o};
      assert View().count == s.count[o := 1];
      assert View().target == s.target;
      assert View().deleted == s.deleted;
    }

    /** Notes that a pointer or object is reached. */
    ghost method Reach(destroyed: bool)
      modifies this`misused
      ensures View() == Reaching(old(View()), destroyed)
    {
      misused := misused || destroyed;
    }
  }

  /** QuicheReferenceCountedImpl, of an object that has these counted pointers as members. */
  class Counted {
    var refCount: int
    var deleted: bool
    const members: seq<Pointer>

    constructor (members: seq<Pointer>)
      ensures refCount == 1 && !deleted && this.members == members
    {
      refCount, deleted, this.members := 1, false, members;
    }

    method AddReference(ghost heap: Heap)
      requires this in heap.objects
      modifies heap`misused, this`refCount
      ensures heap.View() == Add(old(heap.View()), this, 1)
    {
      heap.Reach(deleted);
      ghost var s := heap.View();
      refCount := refCount + 1;
      assert heap.View().count == s.count[this := s.count[this] + 1];
      assert heap.View().target == s.target;
    }

    /** True if the object needs to be deleted. */
    method RemoveReference(ghost heap: Heap) returns (last: bool)
      requires this in heap.objects
      modifies heap`misused, this`refCount
      ensures heap.View() == Add(old(heap.View()), this, -1)
      ensures last <==> refCount == 0
    {
      heap.Reach(deleted);
      ghost var s := heap.View();
      refCount := refCount - 1;
      assert heap.View().count == s.count[this := s.count[this] - 1];
      assert heap.View().target == s.target;
      last := refCount == 0;
    }

    /** The destructor. */
    method Delete(ghost heap: Heap)
      requires Closed(heap.View()) && this in heap.objects
      modifies heap`gone, heap`misused, heap.pointers, heap.objects
      ensures heap.View() == DestroyMembers(Deleting(old(heap.View()), this), members)
      decreases Positive(heap.View()), 3
    {
      ghost var s := heap.View();
      deleted := true;
      assert heap.View() == Deleting(s, this);
      DeleteMembers(heap);
    }

    /** The members are destroyed, the last one first. */
    method DeleteMembers(ghost heap: Heap)
      requires Closed(heap.View()) && this in heap.objects
      modifies heap`gone, heap`misused, heap.pointers, heap.objects
      ensures heap.View() == DestroyMembers(old(heap.View()), members)
      decreases Positive(heap.View()), 2
    {
      ghost var s := heap.View();
      assert this in s.count;
      var n := |members|;
      assert members[..n] == members;
      while n > 0
        invariant 0 <= n <= |members|
        invariant IsLeft(s, heap.View(), members, n)
      {
        n := n - 1;
        ghost var v := heap.View();
        OneLess(s, v, members, n);
        assert members[n] in v.target;
        members[n].Destroy(heap);
      }
    }
  }

  /** QuicheReferenceCountedPointerImpl. The converting forms reach the same field through
      get() and otherwise read alike, so each is here once unless its steps differ. */
  class Pointer {
    var target: Counted?

    // -------------------------------------------------------------------------------------
    // Private steps
    // -------------------------------------------------------------------------------------

    method SetTarget(t: Counted?, ghost heap: Heap)
      requires this in heap.pointers
      modifies heap`misused, this
      ensures heap.View() == Assigned(old(heap.View()), this, t)
    {
      heap.Reach(this in heap.gone);
      ghost var s := heap.View();
      target := t;
      assert heap.View().target == s.target[this := t];
      assert heap.View().count == s.count;
    }

    method AddReference(ghost heap: Heap)
      requires Closed(heap.View()) && this in heap.pointers
      modifies heap`misused, target
      ensures heap.View() == Referenced(old(heap.View()), this)
    {
      heap.Reach(this in heap.gone);
      if target == null {
        return;
      }
      assert heap.View().target[this] == target;
      target.AddReference(heap);
    }

    method RemoveReference(ghost heap: Heap)
      requires Closed(heap.View()) && this in heap.pointers
      modifies heap`gone, heap`misused, heap.pointers, heap.objects
      ensures heap.View() == Release(old(heap.View()), this)
      decreases Positive(heap.View()), 0
    {
      heap.Reach(this in heap.gone);
      if target == null {
        return;
      }
      var o := target;
      ghost var s := heap.View();
      ReleaseSteps(old(heap.View()), this);
      var last := o.RemoveReference(heap);
      assert last <==> Add(s, o, -1).count[o] == 0;
      if last {
        LastReference(s, o, heap.View());
        o.Delete(heap);
      }
      SetTarget(null, heap);
    }

    /** The destructor. */
    method Destroy(ghost heap: Heap)
      requires Closed(heap.View()) && this in heap.pointers
      modifies heap`gone, heap`misused, heap.pointers, heap.objects
      ensures heap.View() == DestroyPointer(old(heap.View()), this)
      decreases Positive(heap.View()), 1
    {
      RemoveReference(heap);
      heap.gone := heap.gone + {this};
    }

    method AssignObject(p: Counted?, ghost heap: Heap)
      requires Closed(heap.View()) && this in heap.pointers && (p != null ==> p in heap.objects)
      modifies heap`gone, heap`misused, heap.pointers, heap.objects
      ensures heap.View() == ObjectAssigned(old(heap.View()), this, p)
    {
      RemoveReference(heap);
      SetTarget(p, heap);
    }

    /** The end of a converting move. */
    method TakeFrom(other: Pointer, ghost heap: Heap)
      requires Closed(heap.View()) && this in heap.pointers && other in heap.pointers
      modifies heap`gone, heap`misused, heap.pointers, heap.objects
      ensures heap.View() == ObjectAssigned(Referenced(old(heap.View()), this), other, null)
    {
      assert heap.View().target[this] == target;
      AddReference(heap);
      other.AssignObject(null, heap);
    }

    // -------------------------------------------------------------------------------------
    // Constructors
    // -------------------------------------------------------------------------------------

    constructor Empty(ghost heap: Heap)
      requires heap.Valid()
      modifies heap`pointers
      ensures fresh(this) && heap.pointers == old(heap.pointers) + {this}
      ensures heap.View() == WithPointer(old(heap.View()), this, null)
      ensures heap.Valid()
    {
      target := null;
      new;
      NewPointer(heap.View(), this);
      heap.Join(this);
    }

    /** From a raw pointer to a new object. */
    constructor Wrap(p: Counted, ghost heap: Heap)
      requires heap.Valid() && IsNew(heap.View(), p) && p.refCount == 1 && !p.deleted
      modifies heap`pointers, heap`objects, heap`misused
      ensures fresh(this) && heap.pointers == old(heap.pointers) + {this}
      ensures heap.View() == Assigned(WithObject(WithPointer(old(heap.View()), this, null), p), this, p)
      ensures heap.Valid()
    {
      target := null;
      new;
      NewPointer(heap.View(), this);
      NewObject(WithPointer(heap.View(), this, null), this, p);
      heap.Join(this);
      heap.Adopt(p);
      SetTarget(p, heap);
    }

    /** Copy and converting copy construction. */
    constructor Copy(other: Pointer, ghost heap: Heap)
      requires heap.Valid() && heap.Has(other)
      modifies heap`pointers, heap`misused, other.target
      ensures fresh(this) && heap.pointers == old(heap.pointers) + {this}
      ensures heap.View() == CopyConstructed(old(heap.View()), this, other)
      ensures heap.Valid()
    {
      ghost var s := heap.View();
      target := other.target;
      new;
      assert heap.View() == s && s.target[other] == target;
      heap.Join(this);
      AddReference(heap);
      CopyConstructionKeepsOrder(s, this, other);
    }

    constructor Move(other: Pointer, ghost heap: Heap)
      requires heap.Valid() && heap.Has(other)
      modifies heap`pointers, heap`misused, other
      ensures fresh(this) && heap.pointers == old(heap.pointers) + {this}
      ensures heap.View() == MoveConstructed(old(heap.View()), this, other)
      ensures heap.Valid()
    {
      target := other.target;
      new;
      assert heap.View().target[other] == target;
      MoveConstructionKeepsOrder(heap.View(), this, other);
      heap.Join(this);
      other.SetTarget(null, heap);
    }

    /** Converting move construction, which cannot reach the other's field: it adds a
        reference and then assigns null to the other. */
    constructor ConvertingMove(other: Pointer, ghost heap: Heap)
      requires heap.Valid() && heap.Has(other)
      modifies heap, heap.pointers, heap.objects
      ensures fresh(this) && heap.pointers == old(heap.pointers) + {this}
      ensures heap.View() == MoveConstructed(old(heap.View()), this, other)
      ensures heap.Valid()
    {
      ghost var s := heap.View();
      target := other.target;
      new;
      assert heap.View() == s && s.target[other] == target;
      heap.Join(this);
      TakeFrom(other, heap);
      ConvertingMoveConstruction(s, this, other);
      MoveConstructionKeepsOrder(s, this, other);
    }

    // -------------------------------------------------------------------------------------
    // Assignments
    // -------------------------------------------------------------------------------------

    /** Copy and converting copy assignment. */
    method AssignCopy(other: Pointer, ghost heap: Heap)
      requires heap.Valid() && heap.Has(this) && heap.Has(other)
      modifies heap`gone, heap`misused, heap.pointers, heap.objects
      ensures heap.View() == CopyAssigned(old(heap.View()), this, other)
      ensures heap.Valid() <==> CopyIsSafe(old(heap.View()), this, other)
    {
      CopyKeepsOrderIff(heap.View(), this, other);
      ghost var s := heap.View();
      assert s.target[other] == other.target;
      AssignObject(other.target, heap);
      AddReference(heap);
    }

    /** Move assignment; from itself it lets go of the object. */
    method AssignMove(other: Pointer, ghost heap: Heap)
      requires heap.Valid() && heap.Has(this) && heap.Has(other)
      modifies heap`gone, heap`misused, heap.pointers, heap.objects
      ensures heap.View() == MoveAssigned(old(heap.View()), this, other)
      ensures heap.Valid() <==> MoveIsSafe(old(heap.View()), this, other)
    {
      MoveKeepsOrderIff(heap.View(), this, other);
      ghost var s := heap.View();
      assert s.target[other] == other.target;
      AssignObject(other.target, heap);
      other.SetTarget(null, heap);
    }

    /** Converting move assignment. The two pointers have different types, so they are two. */
    method AssignConvertingMove(other: Pointer, ghost heap: Heap)
      requires heap.Valid() && heap.Has(this) && heap.Has(other) && this != other
      modifies heap`gone, heap`misused, heap.pointers, heap.objects
      ensures heap.View() == ConvertingMoveAssigned(old(heap.View()), this, other)
      ensures heap.Valid() <==> MoveIsSafe(old(heap.View()), this, other)
    {
      ghost var s := heap.View();
      assert s.target[other] == other.target;
      AssignObject(other.target, heap);
      TakeFrom(other, heap);
      ConvertingMoveKeepsOrderIff(s, this, other);
    }

    /** Assignment from a raw pointer to a new object. */
    method AssignRaw(p: Counted, ghost heap: Heap)
      requires heap.Valid() && heap.Has(this) && IsNew(heap.View(), p) && p.refCount == 1 && !p.deleted
      modifies heap`gone, heap`misused, heap`objects, heap.pointers, heap.objects
      ensures heap.View() == RawAssigned(old(heap.View()), this, p)
      ensures heap.Valid() <==> Survives(old(heap.View()), this, this)
    {
      RawKeepsOrderIff(heap.View(), this, p);
      RemoveReference(heap);
      heap.Adopt(p);
      SetTarget(p, heap);
    }

    /** The same from a null pointer. */
    method AssignNull(ghost heap: Heap)
      requires heap.Valid() && heap.Has(this)
      modifies heap`gone, heap`misused, heap.pointers, heap.objects
      ensures heap.View() == ObjectAssigned(old(heap.View()), this, null)
      ensures heap.Valid() <==> Survives(old(heap.View()), this, this)
    {
      NullKeepsOrderIff(heap.View(), this);
      AssignObject(null, heap);
    }
  }
}
