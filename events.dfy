/** Values and specification functions of the event registry and dispatcher.

    The registry maps the exact class of an event to the handlers registered for
    it. Each per-class entry is a TreeSet ordered by a comparator on the
    handler's priority alone, so it is modelled as a sequence strictly ascending
    by priority: at most one handler per priority value. */
module Events {

  datatype Option<T> = None | Some(value: T)

  /** Java's `byte`, the type of a handler's priority. */
  newtype Priority = x: int | -128 <= x < 128

  /** Identity of a Java class (the key of the registry). */
  type ClassId = nat

  /** Identity of a bound handler callback. */
  type CallbackId = nat

  /** A registered handler. `consumer` is None when binding the listener
      method to a callback failed: the handler is registered all the same. */
  datatype Handler = Handler(priority: Priority, ignoreCancelled: bool, consumer: Option<CallbackId>)

  /** The `@EventHandler` annotation's two attributes. */
  datatype Annotation = Annotation(priority: Priority, ignoreCancelled: bool)

  /** A declared parameter type; `isEvent` says whether `Event` is assignable from it. */
  datatype Param = Param(cls: ClassId, isEvent: bool)

  /** A declared method of a listener class, as reflection reports it, with the
      callback that binding it yields (None when binding fails). */
  datatype MethodDecl = MethodDecl(params: seq<Param>, annotation: Option<Annotation>, binding: Option<CallbackId>)

  /** An event instance. Only a cancellable event carries a cancelled flag. */
  datatype Event = Plain(cls: ClassId) | Cancellable(cls: ClassId, cancelled: bool)

  /** What invoking a callback does to the event it receives. */
  datatype Effect = Keep | SetCancelled(value: bool) | Throw

  /** The exceptions that leave `register` or `call`. */
  datatype Fault = NotInitialized | NullConsumer | CallbackThrew(id: CallbackId)

  /** The observable outcome of one `call`: the handlers whose callback ran, in
      order, the event as the last callback left it, and what was thrown. */
  datatype CallResult = CallResult(invoked: seq<Handler>, event: Event, fault: Option<Fault>)

  type Registry = map<ClassId, seq<Handler>>

  // ---------------------------------------------------------------------------
  // Per-class entries

  predicate StrictlyAscending(s: seq<Handler>) {
    forall i, j :: 0 <= i < j < |s| ==> s[i].priority < s[j].priority
  }

  function Priorities(s: seq<Handler>): set<Priority> {
    set h | h in s :: h.priority
  }

  /** The TreeSet viewed as what it stores: one handler per priority. */
  function Keyed(s: seq<Handler>): map<Priority, Handler> {
    if s == [] then map[] else Keyed(s[1..])[s[0].priority := s[0]]
  }

  /** `TreeSet.add` on that view: an element comparing equal to a present one is not added. */
  function AddKeyed(m: map<Priority, Handler>, h: Handler): map<Priority, Handler> {
    if h.priority in m then m else m[h.priority := h]
  }

  /** `TreeSet.add` on the ascending sequence. */
  function Insert(s: seq<Handler>, h: Handler): seq<Handler> {
    if s == [] then [h]
    else if h.priority < s[0].priority then [h] + s
    else if h.priority == s[0].priority then s
    else [s[0]] + Insert(s[1..], h)
  }

  lemma {:induction false} KeyedKeys(s: seq<Handler>)
    ensures Keyed(s).Keys == Priorities(s)
  {
    if s != [] {
      KeyedKeys(s[1..]);
      assert s == [s[0]] + s[1..];
      assert Priorities(s) == Priorities(s[1..]) + {s[0].priority};
    }
  }

  lemma {:induction false} KeyedHolds(s: seq<Handler>, i: nat)
    requires StrictlyAscending(s) && i < |s|
    ensures s[i].priority in Keyed(s) && Keyed(s)[s[i].priority] == s[i]
  {
    if i > 0 {
      KeyedHolds(s[1..], i - 1);
    }
  }

  lemma {:induction false} InsertPriorities(s: seq<Handler>, h: Handler)
    ensures Priorities(Insert(s, h)) == Priorities(s) + {h.priority}
  {
    if s != [] && h.priority > s[0].priority {
      InsertPriorities(s[1..], h);
      assert s == [s[0]] + s[1..];
      assert Priorities(s) == {s[0].priority} + Priorities(s[1..]);
      assert Priorities(Insert(s, h)) == {s[0].priority} + Priorities(Insert(s[1..], h));
    } else if s != [] && h.priority == s[0].priority {
      assert s[0] in s;
    } else {
      assert Priorities([h] + s) == {h.priority} + Priorities(s);
    }
  }

  /** The head of an ascending entry has its smallest priority; the tail's are all larger. */
  lemma HeadBelowTail(s: seq<Handler>)
    requires StrictlyAscending(s) && s != []
    ensures forall q :: q in Priorities(s[1..]) ==> s[0].priority < q
    ensures forall q :: q in Priorities(s) ==> s[0].priority <= q
  {
    forall q | q in Priorities(s[1..]) ensures s[0].priority < q {
      var k :| k in s[1..] && k.priority == q;
      var i :| 0 <= i < |s[1..]| && s[1..][i] == k;
      assert s[i + 1] == k;
    }
    assert s == [s[0]] + s[1..];
    assert Priorities(s) == {s[0].priority} + Priorities(s[1..]);
  }

  lemma AscendingCons(x: Handler, u: seq<Handler>)
    requires StrictlyAscending(u)
    requires forall q :: q in Priorities(u) ==> x.priority < q
    ensures StrictlyAscending([x] + u)
  {
    var r := [x] + u;
    forall i, j | 0 <= i < j < |r| ensures r[i].priority < r[j].priority {
      assert r[j] == u[j - 1];
      assert r[j].priority in Priorities(u);
    }
  }

  lemma EmptyKeyed(s: seq<Handler>)
    ensures Keyed(s) == map[] <==> s == []
  {
    if s != [] {
      assert s[0].priority in Keyed(s);
    }
  }

  /** Insertion keeps the entry strictly ascending and does on the keyed view
      exactly what `TreeSet.add` does: a handler whose priority is already
      present is dropped, otherwise it is stored under its priority. */
  lemma {:induction false} InsertIsTreeSetAdd(s: seq<Handler>, h: Handler)
    requires StrictlyAscending(s)
    ensures StrictlyAscending(Insert(s, h))
    ensures Keyed(Insert(s, h)) == AddKeyed(Keyed(s), h)
  {
    if s == [] {
    } else if h.priority < s[0].priority {
      InsertBeforeHead(s, h);
    } else if h.priority == s[0].priority {
      assert s[0].priority in Keyed(s);
    } else {
      InsertIsTreeSetAdd(s[1..], h);
      InsertAfterHead(s, h);
    }
  }

  lemma InsertBeforeHead(s: seq<Handler>, h: Handler)
    requires StrictlyAscending(s) && s != [] && h.priority < s[0].priority
    ensures StrictlyAscending(Insert(s, h))
    ensures Keyed(Insert(s, h)) == AddKeyed(Keyed(s), h)
  {
    KeyedKeys(s);
    HeadBelowTail(s);
    AscendingCons(h, s);
    assert ([h] + s)[1..] == s;
  }

  lemma InsertAfterHead(s: seq<Handler>, h: Handler)
    requires StrictlyAscending(s) && s != [] && h.priority > s[0].priority
    requires StrictlyAscending(Insert(s[1..], h))
    requires Keyed(Insert(s[1..], h)) == AddKeyed(Keyed(s[1..]), h)
    ensures StrictlyAscending(Insert(s, h))
    ensures Keyed(Insert(s, h)) == AddKeyed(Keyed(s), h)
  {
    var t := s[1..];
    var r := Insert(s, h);
    assert r == [s[0]] + Insert(t, h);
    InsertPriorities(t, h);
    HeadBelowTail(s);
    AscendingCons(s[0], Insert(t, h));
    assert r[1..] == Insert(t, h);
    UpdateCommutes(Keyed(t), s[0], h);
  }

  /** Storing the head and adding `h` commute when their priorities differ. */
  lemma UpdateCommutes(kt: map<Priority, Handler>, x: Handler, h: Handler)
    requires x.priority != h.priority
    ensures AddKeyed(kt, h)[x.priority := x] == AddKeyed(kt[x.priority := x], h)
  {
  }

  /** A strictly ascending entry is determined by its keyed view: the sequence
      is exactly the TreeSet's iteration order. */
  lemma {:induction false} KeyedDeterminesEntry(s: seq<Handler>, t: seq<Handler>)
    requires StrictlyAscending(s) && StrictlyAscending(t)
    requires Keyed(s) == Keyed(t)
    ensures s == t
  {
    EmptyKeyed(s);
    EmptyKeyed(t);
    if s != [] && t != [] {
      KeyedKeys(s);
      KeyedKeys(t);
      HeadBelowTail(s);
      HeadBelowTail(t);
      assert s[0].priority in Priorities(s);
      assert t[0].priority in Priorities(t);
      var p := s[0].priority;
      assert p == t[0].priority;
      KeyedHolds(s, 0);
      KeyedHolds(t, 0);
      TailKeyed(s);
      TailKeyed(t);
      KeyedDeterminesEntry(s[1..], t[1..]);
      assert s == [s[0]] + s[1..];
      assert t == [t[0]] + t[1..];
    }
  }

  lemma TailKeyed(s: seq<Handler>)
    requires StrictlyAscending(s) && s != []
    ensures Keyed(s[1..]) == Keyed(s) - {s[0].priority}
  {
    var p, kt := s[0].priority, Keyed(s[1..]);
    KeyedKeys(s[1..]);
    HeadBelowTail(s);
    assert p !in kt;
    assert Keyed(s) == kt[p := s[0]];
    UpdateThenRemove(kt, s[0]);
  }

  lemma UpdateThenRemove(m: map<Priority, Handler>, x: Handler)
    requires x.priority !in m
    ensures m[x.priority := x] - {x.priority} == m
  {
  }

  // ---------------------------------------------------------------------------
  // Registration

  /** Every created entry holds a handler and is ordered by its comparator. */
  predicate WellFormed(r: Registry) {
    forall c :: c in r ==> r[c] != [] && StrictlyAscending(r[c])
  }

  function Entry(r: Registry, c: ClassId): seq<Handler> {
    if c in r then r[c] else []
  }

  /** The filter `register` applies to each declared method: exactly one
      parameter, the annotation present, and an `Event`-assignable parameter. */
  predicate Qualifies(m: MethodDecl) {
    |m.params| == 1 && m.annotation.Some? && m.params[0].isEvent
  }

  function HandlerOf(m: MethodDecl): Handler
    requires m.annotation.Some?
  {
    Handler(m.annotation.value.priority, m.annotation.value.ignoreCancelled, m.binding)
  }

  /** Registers for the class `c` some method of `ms`. */
  predicate HandlesClass(ms: seq<MethodDecl>, c: ClassId) {
    exists m :: m in ms && Qualifies(m) && m.params[0].cls == c
  }

  /** One iteration of the loop over the declared methods. */
  function RegisterOne(r: Registry, m: MethodDecl): Registry {
    if Qualifies(m) then
      var c := m.params[0].cls;
      r[c := Insert(Entry(r, c), HandlerOf(m))]
    else r
  }

  /** The registry after `register` has walked the methods `ms` in order. */
  function RegisterAll(r: Registry, ms: seq<MethodDecl>): Registry
    decreases |ms|
  {
    if ms == [] then r else RegisterOne(RegisterAll(r, ms[..|ms| - 1]), ms[|ms| - 1])
  }

  lemma RegisterOneWellFormed(r: Registry, m: MethodDecl)
    requires WellFormed(r)
    ensures WellFormed(RegisterOne(r, m))
  {
    if Qualifies(m) {
      var c := m.params[0].cls;
      InsertIsTreeSetAdd(Entry(r, c), HandlerOf(m));
    }
  }

  /** Registration keeps every entry non-empty and strictly ascending. */
  lemma {:induction false} RegisterAllWellFormed(r: Registry, ms: seq<MethodDecl>)
    requires WellFormed(r)
    ensures WellFormed(RegisterAll(r, ms))
    decreases |ms|
  {
    if ms != [] {
      RegisterAllWellFormed(r, ms[..|ms| - 1]);
      RegisterOneWellFormed(RegisterAll(r, ms[..|ms| - 1]), ms[|ms| - 1]);
    }
  }

  /** Entries of classes that no qualifying method names are untouched:
      neither created nor changed. */
  lemma {:induction false} RegisterOtherClassesUnchanged(r: Registry, ms: seq<MethodDecl>, c: ClassId)
    requires !HandlesClass(ms, c)
    ensures (c in RegisterAll(r, ms)) == (c in r)
    ensures Entry(RegisterAll(r, ms), c) == Entry(r, c)
    decreases |ms|
  {
    if ms != [] {
      var init := ms[..|ms| - 1];
      assert !HandlesClass(init, c) by {
        forall m | m in init ensures !(Qualifies(m) && m.params[0].cls == c) {
          assert m in ms;
        }
      }
      RegisterOtherClassesUnchanged(r, init, c);
      assert ms[|ms| - 1] in ms;
    }
  }

  /** Registration never displaces a stored handler: whatever an entry held
      under a priority, it still holds afterwards, so the first handler
      registered with a given priority for a class is the one that stays. */
  lemma {:induction false} RegisterKeepsEarlier(r: Registry, ms: seq<MethodDecl>, c: ClassId, p: Priority)
    requires WellFormed(r)
    requires p in Keyed(Entry(r, c))
    ensures p in Keyed(Entry(RegisterAll(r, ms), c))
    ensures Keyed(Entry(RegisterAll(r, ms), c))[p] == Keyed(Entry(r, c))[p]
    decreases |ms|
  {
    if ms != [] {
      var init := ms[..|ms| - 1];
      var m := ms[|ms| - 1];
      RegisterKeepsEarlier(r, init, c, p);
      RegisterAllWellFormed(r, init);
      var before := RegisterAll(r, init);
      if Qualifies(m) && m.params[0].cls == c {
        InsertIsTreeSetAdd(Entry(before, c), HandlerOf(m));
      }
    }
  }

  /** Registering a handler whose priority its class's entry already holds
      leaves the whole registry as it was. */
  lemma RegisterDuplicatePriorityUnchanged(r: Registry, m: MethodDecl)
    requires WellFormed(r) && Qualifies(m)
    requires m.annotation.value.priority in Keyed(Entry(r, m.params[0].cls))
    ensures RegisterOne(r, m) == r
  {
    var s := Entry(r, m.params[0].cls);
    InsertIsTreeSetAdd(s, HandlerOf(m));
    KeyedDeterminesEntry(Insert(s, HandlerOf(m)), s);
    EmptyKeyed(s);
  }

  /** Every qualifying method occupies its priority in its class's entry. */
  lemma {:induction false} RegisterOccupiesPriority(r: Registry, ms: seq<MethodDecl>, i: nat)
    requires WellFormed(r)
    requires i < |ms| && Qualifies(ms[i])
    ensures ms[i].params[0].cls in RegisterAll(r, ms)
    ensures ms[i].annotation.value.priority in Keyed(Entry(RegisterAll(r, ms), ms[i].params[0].cls))
    decreases |ms|
  {
    var init := ms[..|ms| - 1];
    var m := ms[|ms| - 1];
    var c := ms[i].params[0].cls;
    var p := ms[i].annotation.value.priority;
    RegisterAllWellFormed(r, init);
    var before := RegisterAll(r, init);
    if i == |ms| - 1 {
      InsertIsTreeSetAdd(Entry(before, c), HandlerOf(m));
    } else {
      assert init[i] == ms[i];
      RegisterOccupiesPriority(r, init, i);
      RegisterKeepsEarlier(before, [m], c, p);
      assert [m][..0] == [];
    }
  }

  /** When the qualifying methods for `c` carry pairwise distinct priorities
      that the entry does not hold yet, each of them ends up stored. */
  lemma {:induction false} RegisterDistinctAllStored(r: Registry, ms: seq<MethodDecl>, c: ClassId, i: nat)
    requires WellFormed(r)
    requires i < |ms| && Qualifies(ms[i]) && ms[i].params[0].cls == c
    requires ms[i].annotation.value.priority !in Keyed(Entry(r, c))
    requires forall j :: 0 <= j < |ms| && j != i && Qualifies(ms[j]) && ms[j].params[0].cls == c ==>
               ms[j].annotation.value.priority != ms[i].annotation.value.priority
    ensures HandlerOf(ms[i]) in Entry(RegisterAll(r, ms), c)
    decreases |ms|
  {
    var init := ms[..|ms| - 1];
    var m := ms[|ms| - 1];
    var p := ms[i].annotation.value.priority;
    RegisterAllWellFormed(r, init);
    var before := RegisterAll(r, init);
    if i == |ms| - 1 {
      forall j | 0 <= j < |init|
        ensures !Declares(init[j], c, p)
      {
        assert init[j] == ms[j];
      }
      RegisterStoresFirst(r, init, c, p);
      InsertIsTreeSetAdd(Entry(before, c), HandlerOf(m));
      StoredAt(Insert(Entry(before, c), HandlerOf(m)), HandlerOf(m));
    } else {
      assert init[i] == ms[i];
      RegisterDistinctAllStored(r, init, c, i);
      var s := Entry(before, c);
      var k :| 0 <= k < |s| && s[k] == HandlerOf(ms[i]);
      KeyedHolds(s, k);
      RegisterKeepsEarlier(before, [m], c, p);
      assert [m][..0] == [];
      RegisterAllWellFormed(before, [m]);
      StoredAt(Entry(RegisterAll(before, [m]), c), HandlerOf(ms[i]));
    }
  }

  /** `m` is a qualifying method for class `c` declaring priority `p`. */
  predicate Declares(m: MethodDecl, c: ClassId, p: Priority) {
    Qualifies(m) && m.params[0].cls == c && m.annotation.value.priority == p
  }

  /** What an entry holds under a priority after registration is what it held
      before or, when it held nothing there, the handler built from the FIRST
      method of the listener that qualifies for that class with that priority. */
  lemma {:induction false} RegisterStoresFirst(r: Registry, ms: seq<MethodDecl>, c: ClassId, p: Priority)
    requires WellFormed(r)
    ensures p in Keyed(Entry(RegisterAll(r, ms), c)) ==>
              (p in Keyed(Entry(r, c)) && Keyed(Entry(RegisterAll(r, ms), c))[p] == Keyed(Entry(r, c))[p]) ||
              (p !in Keyed(Entry(r, c)) &&
               exists j :: 0 <= j < |ms| && Declares(ms[j], c, p)
                           && Keyed(Entry(RegisterAll(r, ms), c))[p] == HandlerOf(ms[j])
                           && forall k :: 0 <= k < j ==> !Declares(ms[k], c, p))
    decreases |ms|
  {
    if ms != [] {
      var init := ms[..|ms| - 1];
      var m := ms[|ms| - 1];
      RegisterAllWellFormed(r, init);
      var before := RegisterAll(r, init);
      var k0, k1, k2 := Keyed(Entry(r, c)), Keyed(Entry(before, c)), Keyed(Entry(RegisterAll(r, ms), c));
      forall k | 0 <= k < |init| && Declares(init[k], c, p) ensures p in k1 {
        RegisterOccupiesPriority(r, init, k);
      }
      RegisterStoresFirst(r, init, c, p);
      if p in k0 {
        RegisterKeepsEarlier(r, init, c, p);
      }
      if Qualifies(m) && m.params[0].cls == c {
        InsertIsTreeSetAdd(Entry(before, c), HandlerOf(m));
        assert k2 == AddKeyed(k1, HandlerOf(m));
      } else {
        assert k2 == k1;
      }
      if p in k1 && p !in k0 {
        var j :| 0 <= j < |init| && Declares(init[j], c, p) && k1[p] == HandlerOf(init[j])
                 && forall k :: 0 <= k < j ==> !Declares(init[k], c, p);
        assert ms[j] == init[j];
        assert forall k :: 0 <= k < j ==> ms[k] == init[k];
      } else if p !in k1 && p in k2 {
        var j := |ms| - 1;
        assert Declares(ms[j], c, p) && k2[p] == HandlerOf(ms[j]);
        assert forall k :: 0 <= k < j ==> ms[k] == init[k];
      }
    }
  }

  lemma StoredAt(s: seq<Handler>, h: Handler)
    requires h.priority in Keyed(s) && Keyed(s)[h.priority] == h
    ensures h in s
  {
    if s != [] && s[0].priority != h.priority {
      StoredAt(s[1..], h);
    }
  }

  // ---------------------------------------------------------------------------
  // Dispatch

  /** The skip rule `call` applies before each handler. */
  predicate Skips(h: Handler, e: Event) {
    h.ignoreCancelled && e.Cancellable? && e.cancelled
  }

  /** The event after a callback with effect `eff` returned; a plain event has no flag. */
  function Apply(e: Event, eff: Effect): Event {
    match eff
    case SetCancelled(b) => if e.Cancellable? then e.(cancelled := b) else e
    case _ => e
  }

  function Prepend(hs: seq<Handler>, r: CallResult): CallResult {
    r.(invoked := hs + r.invoked)
  }

  /** The loop of `call` over one entry, from the event as it stands. A
      handler without a consumer raises a NullPointerException when reached;
      a callback that throws ends the call. */
  function RunHandlers(hs: seq<Handler>, e: Event, effect: CallbackId -> Effect): CallResult
    decreases |hs|
  {
    if hs == [] then CallResult([], e, None)
    else if Skips(hs[0], e) then RunHandlers(hs[1..], e, effect)
    else match hs[0].consumer
      case None => CallResult([], e, Some(NullConsumer))
      case Some(id) =>
        if effect(id) == Throw then CallResult([hs[0]], e, Some(CallbackThrew(id)))
        else Prepend([hs[0]], RunHandlers(hs[1..], Apply(e, effect(id)), effect))
  }

  /** `call(event)` on a registry: routing by the event's exact class. */
  function Dispatch(initialized: bool, r: Registry, e: Event, effect: CallbackId -> Effect): CallResult {
    if !initialized then CallResult([], e, Some(NotInitialized))
    else RunHandlers(Entry(r, e.cls), e, effect)
  }

  /** Only handlers of the entry run, and they run in entry order: on an
      ascending entry, in strictly ascending priority. */
  lemma {:induction false} RunInOrder(hs: seq<Handler>, e: Event, effect: CallbackId -> Effect)
    requires StrictlyAscending(hs)
    ensures forall h :: h in RunHandlers(hs, e, effect).invoked ==> h in hs
    ensures StrictlyAscending(RunHandlers(hs, e, effect).invoked)
    decreases |hs|
  {
    if hs != [] {
      var e' := if Skips(hs[0], e) || hs[0].consumer.None? then e else Apply(e, effect(hs[0].consumer.value));
      RunInOrder(hs[1..], e', effect);
      var rest := RunHandlers(hs[1..], e', effect).invoked;
      forall h | h in rest ensures hs[0].priority < h.priority {
        var i :| 0 <= i < |hs[1..]| && hs[1..][i] == h;
        assert hs[i + 1] == h;
      }
      forall h | h in rest ensures h in hs {
        var i :| 0 <= i < |hs[1..]| && hs[1..][i] == h;
        assert hs[i + 1] == h;
      }
      if !Skips(hs[0], e) && hs[0].consumer.Some? && effect(hs[0].consumer.value) != Throw {
        var r := [hs[0]] + rest;
        assert forall j :: 0 < j < |r| ==> r[j] == rest[j - 1];
        assert forall j :: 0 < j < |r| ==> r[j] in rest;
      }
    }
  }

  /** A handler with `ignoreCancelled` false is never skipped: when the call
      ends normally, every such handler of the entry has run. */
  lemma {:induction false} NotIgnoringAlwaysRuns(hs: seq<Handler>, e: Event, effect: CallbackId -> Effect, i: nat)
    requires i < |hs| && !hs[i].ignoreCancelled
    requires RunHandlers(hs, e, effect).fault == None
    ensures hs[i] in RunHandlers(hs, e, effect).invoked
    decreases |hs|
  {
    if i == 0 {
      assert !Skips(hs[0], e);
    } else {
      var e' := if Skips(hs[0], e) then e else Apply(e, effect(hs[0].consumer.value));
      NotIgnoringAlwaysRuns(hs[1..], e', effect, i - 1);
    }
  }

  /** A plain event is never skipped: the handlers that ran are a prefix of
      the entry, the whole entry when nothing was thrown. */
  lemma {:induction false} PlainNeverSkips(hs: seq<Handler>, c: ClassId, effect: CallbackId -> Effect)
    ensures RunHandlers(hs, Plain(c), effect).event == Plain(c)
    ensures RunHandlers(hs, Plain(c), effect).invoked <= hs
    ensures RunHandlers(hs, Plain(c), effect).fault == None ==> RunHandlers(hs, Plain(c), effect).invoked == hs
    decreases |hs|
  {
    if hs != [] {
      PlainNeverSkips(hs[1..], c, effect);
      assert hs == [hs[0]] + hs[1..];
    }
  }

  /** If the event starts out not cancelled and no callback of the entry sets
      the flag, nothing is skipped. */
  lemma {:induction false} NeverCancelledRunsAll(hs: seq<Handler>, c: ClassId, effect: CallbackId -> Effect)
    requires forall h :: h in hs && h.consumer.Some? ==> effect(h.consumer.value) != SetCancelled(true)
    ensures RunHandlers(hs, Cancellable(c, false), effect).invoked <= hs
    ensures RunHandlers(hs, Cancellable(c, false), effect).fault == None ==>
              RunHandlers(hs, Cancellable(c, false), effect).invoked == hs
    decreases |hs|
  {
    if hs != [] {
      assert hs[0] in hs;
      forall h | h in hs[1..] && h.consumer.Some? ensures effect(h.consumer.value) != SetCancelled(true) {
        assert h in hs;
      }
      NeverCancelledRunsAll(hs[1..], c, effect);
      var e := Cancellable(c, false);
      assert !Skips(hs[0], e);
      if hs[0].consumer.Some? && effect(hs[0].consumer.value) != Throw {
        assert Apply(e, effect(hs[0].consumer.value)) == e;
        assert RunHandlers(hs, e, effect) == Prepend([hs[0]], RunHandlers(hs[1..], e, effect));
        assert hs == [hs[0]] + hs[1..];
      }
    }
  }

  /** An event already cancelled when the call starts reaches none of the
      handlers that ignore cancelled events, as long as no earlier callback
      clears the flag. */
  lemma {:induction false} CancelledSkipsIgnoring(hs: seq<Handler>, c: ClassId, effect: CallbackId -> Effect)
    requires forall h :: h in hs && h.consumer.Some? ==> effect(h.consumer.value) != SetCancelled(false)
    ensures forall h :: h in RunHandlers(hs, Cancellable(c, true), effect).invoked ==> !h.ignoreCancelled
    ensures RunHandlers(hs, Cancellable(c, true), effect).event == Cancellable(c, true)
    decreases |hs|
  {
    if hs != [] {
      assert hs[0] in hs;
      forall h | h in hs[1..] && h.consumer.Some? ensures effect(h.consumer.value) != SetCancelled(false) {
        assert h in hs;
      }
      CancelledSkipsIgnoring(hs[1..], c, effect);
    }
  }

  /** The call over an entry is the call over a prefix followed by the call
      over the rest, from the event as the prefix's callbacks left it. */
  lemma {:induction false} RunSplit(hs: seq<Handler>, k: nat, e: Event, effect: CallbackId -> Effect)
    requires k <= |hs|
    requires RunHandlers(hs[..k], e, effect).fault == None
    ensures RunHandlers(hs, e, effect)
            == Prepend(RunHandlers(hs[..k], e, effect).invoked,
                       RunHandlers(hs[k..], RunHandlers(hs[..k], e, effect).event, effect))
    decreases k
  {
    if k == 0 {
      assert hs[..0] == [] && hs[0..] == hs;
    } else {
      assert hs[..k][0] == hs[0];
      assert hs[..k][1..] == hs[1..][..k - 1];
      assert hs[1..][k - 1..] == hs[k..];
      if Skips(hs[0], e) {
        RunSplit(hs[1..], k - 1, e, effect);
      } else if hs[0].consumer.Some? && effect(hs[0].consumer.value) != Throw {
        RunSplit(hs[1..], k - 1, Apply(e, effect(hs[0].consumer.value)), effect);
      }
    }
  }

  /** The skip rule, checked each time the call reaches a handler: on an
      ascending entry whose earlier handlers ran without throwing, the handler
      at position `k` runs exactly when it has a consumer and is not skipped
      for the event as the earlier callbacks left it. */
  lemma SkipAt(hs: seq<Handler>, k: nat, e: Event, effect: CallbackId -> Effect)
    requires StrictlyAscending(hs) && k < |hs|
    requires RunHandlers(hs[..k], e, effect).fault == None
    ensures hs[k] in RunHandlers(hs, e, effect).invoked
            <==> !Skips(hs[k], RunHandlers(hs[..k], e, effect).event) && hs[k].consumer.Some?
  {
    var pre := RunHandlers(hs[..k], e, effect);
    RunSplit(hs, k, e, effect);
    RunInOrder(hs[..k], e, effect);
    assert hs[k] !in pre.invoked by {
      forall h | h in pre.invoked ensures h.priority < hs[k].priority {
        var i :| 0 <= i < k && hs[..k][i] == h;
      }
    }
    var t := hs[k..];
    assert t[0] == hs[k] && t[1..] == hs[k + 1..];
    if Skips(hs[k], pre.event) {
      RunInOrder(hs[k + 1..], pre.event, effect);
      forall h | h in RunHandlers(hs[k + 1..], pre.event, effect).invoked ensures h.priority > hs[k].priority {
        var i :| 0 <= i < |hs| - k - 1 && hs[k + 1..][i] == h;
        assert h == hs[k + 1 + i];
      }
    }
  }

  /** Once some handler has cancelled the event, no later handler that ignores
      cancelled events runs, as long as no later callback clears the flag. */
  lemma CancelledMidCallSkipsIgnoring(hs: seq<Handler>, k: nat, e: Event, effect: CallbackId -> Effect)
    requires k <= |hs|
    requires RunHandlers(hs[..k], e, effect).fault == None
    requires RunHandlers(hs[..k], e, effect).event.Cancellable? && RunHandlers(hs[..k], e, effect).event.cancelled
    requires forall h :: h in hs[k..] && h.consumer.Some? ==> effect(h.consumer.value) != SetCancelled(false)
    ensures RunHandlers(hs, e, effect).invoked
            == RunHandlers(hs[..k], e, effect).invoked
               + RunHandlers(hs[k..], RunHandlers(hs[..k], e, effect).event, effect).invoked
    ensures forall h :: h in RunHandlers(hs[k..], RunHandlers(hs[..k], e, effect).event, effect).invoked
              ==> !h.ignoreCancelled
  {
    var pre := RunHandlers(hs[..k], e, effect);
    RunSplit(hs, k, e, effect);
    CancelledSkipsIgnoring(hs[k..], pre.event.cls, effect);
  }

  /** Routing is by exact class: registering methods for other classes does not
      change what a call on an event of class `e.cls` does. */
  lemma ExactClassRouting(initialized: bool, r: Registry, ms: seq<MethodDecl>, e: Event, effect: CallbackId -> Effect)
    requires !HandlesClass(ms, e.cls)
    ensures Dispatch(initialized, RegisterAll(r, ms), e, effect) == Dispatch(initialized, r, e, effect)
  {
    RegisterOtherClassesUnchanged(r, ms, e.cls);
  }

  /** A call on a class without an entry returns normally and runs nothing. */
  lemma NoEntryNoEffect(r: Registry, e: Event, effect: CallbackId -> Effect)
    requires e.cls !in r
    ensures Dispatch(true, r, e, effect) == CallResult([], e, None)
  {
  }

  /** A cancellable login event with three handlers: the first (priority 1)
      cancels it, the second (priority 2) ignores cancelled events and is
      skipped, the third (priority 3) does not and runs. */
  lemma LoginScenario(login: ClassId)
    ensures
      var ms := [MethodDecl([Param(login, true)], Some(Annotation(1, false)), Some(1)),
                 MethodDecl([Param(login, true)], Some(Annotation(2, true)), Some(2)),
                 MethodDecl([Param(login, true)], Some(Annotation(3, false)), Some(3))];
      var effect := (id: CallbackId) => if id == 1 then SetCancelled(true) else Keep;
      Dispatch(true, RegisterAll(map[], ms), Cancellable(login, false), effect)
        == CallResult([Handler(1, false, Some(1)), Handler(3, false, Some(3))], Cancellable(login, true), None)
  {
    var ms := [MethodDecl([Param(login, true)], Some(Annotation(1, false)), Some(1)),
               MethodDecl([Param(login, true)], Some(Annotation(2, true)), Some(2)),
               MethodDecl([Param(login, true)], Some(Annotation(3, false)), Some(3))];
    var effect := (id: CallbackId) => if id == 1 then SetCancelled(true) else Keep;
    var h1, h2, h3 := Handler(1, false, Some(1)), Handler(2, true, Some(2)), Handler(3, false, Some(3));
    assert ms[..2][..1] == ms[..1] && ms[..1][..0] == [] && ms[..3] == ms;
    assert RegisterAll(map[], ms[..1]) == map[login := [h1]];
    assert Insert([h1], h2) == [h1, h2] by {
      assert [h1][1..] == [];
      assert Insert([], h2) == [h2];
    }
    assert RegisterAll(map[], ms[..2]) == RegisterOne(map[login := [h1]], ms[1]);
    assert RegisterAll(map[], ms[..2]) == map[login := [h1, h2]];
    assert Insert([h1, h2], h3) == [h1, h2, h3] by {
      assert [h1, h2][1..] == [h2] && [h2][1..] == [];
      assert Insert([h2], h3) == [h2] + Insert([], h3);
    }
    assert RegisterAll(map[], ms) == RegisterOne(map[login := [h1, h2]], ms[2]);
    assert RegisterAll(map[], ms) == map[login := [h1, h2, h3]];
    var hs := [h1, h2, h3];
    assert hs[1..] == [h2, h3] && hs[1..][1..] == [h3] && hs[1..][1..][1..] == [];
    assert Entry(RegisterAll(map[], ms), login) == hs;
    assert RunHandlers([h3], Cancellable(login, true), effect)
        == CallResult([h3], Cancellable(login, true), None);
    assert RunHandlers([h2, h3], Cancellable(login, true), effect)
        == RunHandlers([h3], Cancellable(login, true), effect);
    assert Apply(Cancellable(login, false), effect(1)) == Cancellable(login, true);
    assert RunHandlers(hs, Cancellable(login, false), effect)
        == Prepend([h1], RunHandlers([h2, h3], Cancellable(login, true), effect));
  }
}
