// chicago_parser_exe/src/ch_recv.c: collecting the datamaps that the payload sends.
module ReceiverSpec {
  import opened Wrappers
  import opened Bytes
  import opened Datamaps
  import opened DatamapOrder

  const HELLO := 0
  const DATAMAP := 1
  const LINKED_NAME := 2
  const LOG_INFO := 3
  const LOG_ERROR := 4
  const GOODBYE := 5

  // A key or a value of a map of linked names; None if it is not a string.
  datatype Pair = Pair(key: Option<Name>, target: Option<Name>)

  datatype Data = Nil | Text | Pairs(pairs: seq<Pair>) | Tree(root: Map) | Malformed

  // A decoded message, and what the machine does meanwhile: whether the table of datamaps
  // has memory for another entry when it holds n, whether there is memory for another
  // message, and whether the collection can be written.
  datatype Event = Event(kind: nat, data: Data, fits: nat -> bool, spare: bool, disk: bool)

  datatype Result = OK | FINISHED | ERROR | OUT_OF_MEMORY | BAD_FORMAT

  type Store = map<Name, Map>

  datatype Link = Link(key: Name, target: Name)

  datatype State = State(gotHello: bool, store: Store, linked: seq<Link>)

  const INITIAL := State(false, map[], [])

  // ---------- datamaps ----------

  datatype Hashed = Hashed(result: Result, store: Store)

  predicate Agrees(a: Map, b: Map) {
    a.mod == b.mod && a.modOffset == b.modOffset
  }

  // ch_verify_and_hash_dm_cb
  function HashOne(store: Store, m: Map, fits: nat -> bool): Hashed {
    if m.name !in store then
      if fits(|store|) then Hashed(OK, store[m.name := m]) else Hashed(OUT_OF_MEMORY, store)
    else Hashed(if Agrees(store[m.name], m) then OK else ERROR, store)
  }

  function HashAll(store: Store, ms: seq<Map>, fits: nat -> bool): Hashed
    decreases |ms|
  {
    if ms == [] then Hashed(OK, store)
    else
      var h := HashOne(store, ms[0], fits);
      if h.result.OK? then HashAll(h.store, ms[1..], fits) else h
  }

  lemma {:induction false} HashConcat(store: Store, a: seq<Map>, b: seq<Map>, fits: nat -> bool)
    ensures var h := HashAll(store, a, fits);
      HashAll(store, a + b, fits) == if h.result.OK? then HashAll(h.store, b, fits) else h
    decreases |a|
  {
    if a == [] {
      assert a + b == b;
    } else {
      var h := HashOne(store, a[0], fits);
      assert (a + b)[1..] == a[1..] + b;
      HashConcat(h.store, a[1..], b, fits);
    }
  }

  // ---------- which datamaps are accepted ----------

  ghost predicate SameOrigin(a: Map, b: Map) {
    a.mod == b.mod && a.modOffset == b.modOffset
  }

  // Each map has the module and the offset of the one stored under its name, or of the first
  // map of that name.
  ghost predicate Agreeing(store: Store, ms: seq<Map>) {
    && (forall i :: 0 <= i < |ms| && ms[i].name in store ==> SameOrigin(store[ms[i].name], ms[i]))
    && (forall i, j :: 0 <= i < j < |ms| && ms[i].name == ms[j].name && ms[i].name !in store ==>
        SameOrigin(ms[i], ms[j]))
  }

  // The names that are not stored yet.
  ghost function NewNames(store: Store, ms: seq<Map>): set<Name> {
    set m | m in ms && m.name !in store :: m.name
  }

  // There is memory for each new name, with what the table holds by then.
  ghost predicate Room(store: Store, ms: seq<Map>, fits: nat -> bool) {
    forall n: nat :: |store| <= n < |store| + |NewNames(store, ms)| ==> fits(n)
  }

  ghost predicate Maps(store: Store, n: Name, m: Map) {
    n in store && store[n] == m
  }

  ghost predicate IsFirst(ms: seq<Map>, i: nat)
    requires i < |ms|
  {
    forall j :: 0 <= j < i ==> ms[j].name != ms[i].name
  }

  // The store with all these maps in it: the first map of each new name.
  ghost predicate TakenIn(store: Store, ms: seq<Map>, after: Store) {
    && after.Keys == store.Keys + NewNames(store, ms)
    && (forall n :: n in store ==> after[n] == store[n])
    && (forall i: nat :: i < |ms| && IsFirst(ms, i) && ms[i].name !in store ==> Maps(after, ms[i].name, ms[i]))
  }

  lemma {:induction false} FirstOld(store: Store, ms: seq<Map>, fits: nat -> bool)
    requires ms != [] && ms[0].name in store
    ensures Agreeing(store, ms) <==> SameOrigin(store[ms[0].name], ms[0]) && Agreeing(store, ms[1..])
    ensures Room(store, ms, fits) <==> Room(store, ms[1..], fits)
    ensures forall after :: TakenIn(store, ms[1..], after) ==> TakenIn(store, ms, after)
  {
    hide NewNames, TakenIn, Agreeing;
    assert ms == [ms[0]] + ms[1..];
    NamesOld(store, ms[0], ms[1..]);
    AgreeOld(store, ms);
    forall after | TakenIn(store, ms[1..], after)
      ensures TakenIn(store, ms, after)
    {
      TakeOld(store, ms, after);
    }
  }

  lemma {:induction false} AgreeOld(store: Store, ms: seq<Map>)
    requires ms != [] && ms[0].name in store
    ensures Agreeing(store, ms) <==> SameOrigin(store[ms[0].name], ms[0]) && Agreeing(store, ms[1..])
  {
    var rest := ms[1..];
    assert forall i :: 0 < i < |ms| ==> ms[i] == rest[i - 1];
    assert forall i :: 0 <= i < |rest| ==> rest[i] == ms[i + 1];
  }

  lemma {:induction false} NamesOld(store: Store, m: Map, rest: seq<Map>)
    requires m.name in store
    ensures NewNames(store, [m] + rest) == NewNames(store, rest)
  {
  }

  lemma {:induction false} TakeOld(store: Store, ms: seq<Map>, after: Store)
    requires ms != [] && ms[0].name in store && TakenIn(store, ms[1..], after)
    ensures TakenIn(store, ms, after)
  {
    hide NewNames, IsFirst;
    assert ms == [ms[0]] + ms[1..];
    NamesOld(store, ms[0], ms[1..]);
    forall i: nat | i < |ms| && IsFirst(ms, i) && ms[i].name !in store
      ensures Maps(after, ms[i].name, ms[i])
    {
      FirstOfRest(ms, i);
    }
  }

  lemma {:induction false} FirstNew(store: Store, ms: seq<Map>, fits: nat -> bool)
    requires ms != [] && ms[0].name !in store
    ensures var more := store[ms[0].name := ms[0]];
      && (Agreeing(store, ms) <==> Agreeing(more, ms[1..]))
      && (Room(store, ms, fits) <==> fits(|store|) && Room(more, ms[1..], fits))
      && (forall after :: TakenIn(more, ms[1..], after) ==> TakenIn(store, ms, after))
  {
    hide Room, TakenIn;
    AgreeNew(store, ms);
    RoomNew(store, ms, fits);
    forall after | TakenIn(store[ms[0].name := ms[0]], ms[1..], after)
      ensures TakenIn(store, ms, after)
    {
      TakeNew(store, ms, after);
    }
  }

  lemma {:induction false} AgreeNew(store: Store, ms: seq<Map>)
    requires ms != [] && ms[0].name !in store
    ensures Agreeing(store, ms) <==> Agreeing(store[ms[0].name := ms[0]], ms[1..])
  {
    var more, rest := store[ms[0].name := ms[0]], ms[1..];
    assert forall i :: 0 < i < |ms| ==> ms[i] == rest[i - 1];
    assert forall i :: 0 <= i < |rest| ==> rest[i] == ms[i + 1];
    if Agreeing(more, rest) {
      forall i, j | 0 <= i < j < |ms| && ms[i].name == ms[j].name && ms[i].name !in store
        ensures SameOrigin(ms[i], ms[j])
      {
        if i > 0 && ms[i].name == ms[0].name {
          assert SameOrigin(more[rest[i - 1].name], rest[i - 1]) && SameOrigin(more[rest[j - 1].name], rest[j - 1]);
        }
      }
    }
  }

  lemma {:induction false} NamesNew(store: Store, m: Map, rest: seq<Map>)
    requires m.name !in store
    ensures var more := store[m.name := m];
      && NewNames(store, [m] + rest) == NewNames(more, rest) + {m.name} && m.name !in NewNames(more, rest)
      && more.Keys == store.Keys + {m.name}
  {
    var more, ms := store[m.name := m], [m] + rest;
    assert ms[0] == m;
    forall n | n in NewNames(store, ms)
      ensures n in NewNames(more, rest) + {m.name}
    {
      var x :| x in ms && x.name == n;
    }
    forall n | n in NewNames(more, rest) + {m.name}
      ensures n in NewNames(store, ms)
    {
      if n != m.name {
        var x :| x in rest && x.name == n;
        assert x in ms;
      }
    }
  }

  lemma {:induction false} OneMoreName(names: set<Name>, n: Name)
    requires n !in names
    ensures |names + {n}| == |names| + 1
  {
  }

  lemma {:induction false} RoomNew(store: Store, ms: seq<Map>, fits: nat -> bool)
    requires ms != [] && ms[0].name !in store
    ensures Room(store, ms, fits) <==> fits(|store|) && Room(store[ms[0].name := ms[0]], ms[1..], fits)
  {
    hide NewNames;
    var more := store[ms[0].name := ms[0]];
    assert ms == [ms[0]] + ms[1..];
    NamesNew(store, ms[0], ms[1..]);
    OneMoreName(NewNames(more, ms[1..]), ms[0].name);
    OneMoreName(store.Keys, ms[0].name);
    RoomStep(|store|, |NewNames(more, ms[1..])|, fits);
    assert |more| == |more.Keys| && |store| == |store.Keys|;
  }

  lemma {:induction false} RoomStep(a: nat, n: nat, fits: nat -> bool)
    ensures (forall k: nat :: a <= k < a + (n + 1) ==> fits(k)) <==>
      fits(a) && forall k: nat :: a + 1 <= k < a + 1 + n ==> fits(k)
  {
  }

  lemma {:induction false} TakenKeys(store: Store, ms: seq<Map>, after: Store)
    requires ms != [] && ms[0].name !in store
    requires after.Keys == store[ms[0].name := ms[0]].Keys + NewNames(store[ms[0].name := ms[0]], ms[1..])
    ensures after.Keys == store.Keys + NewNames(store, ms)
  {
    hide NewNames;
    assert ms == [ms[0]] + ms[1..];
    NamesNew(store, ms[0], ms[1..]);
  }

  lemma {:induction false} TakeNew(store: Store, ms: seq<Map>, after: Store)
    requires ms != [] && ms[0].name !in store && TakenIn(store[ms[0].name := ms[0]], ms[1..], after)
    ensures TakenIn(store, ms, after)
  {
    hide NewNames, IsFirst;
    TakenKeys(store, ms, after);
    var more := store[ms[0].name := ms[0]];
    forall n | n in more
      ensures n in after && after[n] == more[n]
    {
    }
    forall i: nat | i < |ms| && IsFirst(ms, i) && ms[i].name !in store
      ensures Maps(after, ms[i].name, ms[i])
    {
      if i > 0 {
        FirstOfRest(ms, i);
      }
    }
  }

  lemma {:induction false} FirstOfRest(ms: seq<Map>, i: nat)
    requires 0 < i < |ms| && IsFirst(ms, i)
    ensures IsFirst(ms[1..], i - 1) && ms[1..][i - 1] == ms[i] && ms[i].name != ms[0].name
  {
  }

  // All maps are accepted exactly if they agree and there is memory for the new ones. The
  // first k are taken in; the next one is of another origin, or there is no memory for it.
  lemma {:induction false} HashVerdict(store: Store, ms: seq<Map>, fits: nat -> bool) returns (k: nat)
    ensures var h := HashAll(store, ms, fits);
      && (h.result.OK? <==> Agreeing(store, ms) && Room(store, ms, fits))
      && k <= |ms| && (h.result.OK? <==> k == |ms|) && TakenIn(store, ms[..k], h.store)
      && Agreeing(store, ms[..k]) && Room(store, ms[..k], fits)
      && (k < |ms| && !Agreeing(store, ms[..k + 1]) ==> h.result.ERROR?)
      && (k < |ms| && Agreeing(store, ms[..k + 1]) ==> h.result.OUT_OF_MEMORY? && !Room(store, ms[..k + 1], fits))
    decreases |ms|
  {
    hide Agreeing, Room, TakenIn;
    NothingNew(store, fits);
    assert ms[..0] == [];
    if ms == [] {
      return 0;
    }
    var h := HashOne(store, ms[0], fits);
    assert [ms[0]][1..] == [] && ms[..0 + 1] == [ms[0]];
    if ms[0].name in store {
      FirstOld(store, ms, fits);
      FirstOld(store, [ms[0]], fits);
    } else {
      FirstNew(store, ms, fits);
      FirstNew(store, [ms[0]], fits);
      NothingNew(store[ms[0].name := ms[0]], fits);
    }
    if !h.result.OK? {
      return 0;
    }
    var l := HashVerdict(h.store, ms[1..], fits);
    k := l + 1;
    PrefixStep(store, ms, k, fits);
    if k < |ms| {
      PrefixStep(store, ms, k + 1, fits);
    }
  }

  lemma {:induction false} PrefixStep(store: Store, ms: seq<Map>, k: nat, fits: nat -> bool)
    requires 1 <= k <= |ms| && HashOne(store, ms[0], fits).result.OK?
    ensures var more := HashOne(store, ms[0], fits).store; var front, rest := ms[..k], ms[1..][..k - 1];
      && (Agreeing(store, front) <==> Agreeing(more, rest)) && (Room(store, front, fits) <==> Room(more, rest, fits))
      && forall after :: TakenIn(more, rest, after) ==> TakenIn(store, front, after)
  {
    hide Agreeing, Room, TakenIn;
    assert ms[..k][1..] == ms[1..][..k - 1];
    if ms[0].name in store {
      FirstOld(store, ms[..k], fits);
    } else {
      FirstNew(store, ms[..k], fits);
    }
  }

  lemma {:induction false} NothingNew(store: Store, fits: nat -> bool)
    ensures Agreeing(store, []) && Room(store, [], fits) && TakenIn(store, [], store)
  {
    assert NewNames(store, []) == {};
  }

  // ---------- linked names ----------

  // The loop of ch_verify_linked_names
  function CheckPairs(store: Store, pairs: seq<Pair>): Result
    decreases |pairs|
  {
    if pairs == [] then OK
    else if pairs[0].key.None? || pairs[0].target.None? then BAD_FORMAT
    else if pairs[0].key.value in store || pairs[0].target.value !in store then ERROR
    else CheckPairs(store, pairs[1..])
  }

  function Links(pairs: seq<Pair>): (links: seq<Link>)
    requires forall i :: 0 <= i < |pairs| ==> pairs[i].key.Some? && pairs[i].target.Some?
    ensures |links| == |pairs|
    ensures forall i :: 0 <= i < |pairs| ==> links[i] == Link(pairs[i].key.value, pairs[i].target.value)
  {
    seq(|pairs|, i requires 0 <= i < |pairs| => Link(pairs[i].key.value, pairs[i].target.value))
  }

  // A pair of strings that links a new name to a stored datamap.
  predicate GoodPair(store: Store, p: Pair) {
    p.key.Some? && p.target.Some? && p.key.value !in store && p.target.value in store
  }

  ghost predicate FirstBad(store: Store, pairs: seq<Pair>, i: nat)
    requires i < |pairs|
  {
    !GoodPair(store, pairs[i]) && forall j :: 0 <= j < i ==> GoodPair(store, pairs[j])
  }

  // Pairs are accepted exactly if all are good. Otherwise the first that is not decides.
  lemma {:induction false} CheckedPairs(store: Store, pairs: seq<Pair>)
    ensures CheckPairs(store, pairs).OK? <==> forall i :: 0 <= i < |pairs| ==> GoodPair(store, pairs[i])
    ensures forall i: nat :: i < |pairs| && FirstBad(store, pairs, i) ==>
      CheckPairs(store, pairs) == if pairs[i].key.Some? && pairs[i].target.Some? then ERROR else BAD_FORMAT
    decreases |pairs|
  {
    if pairs != [] {
      var rest := pairs[1..];
      CheckedPairs(store, rest);
      assert forall i :: 0 < i < |pairs| ==> pairs[i] == rest[i - 1];
      assert forall i :: 0 <= i < |rest| ==> rest[i] == pairs[i + 1];
      forall i: nat | i < |pairs| && FirstBad(store, pairs, i)
        ensures CheckPairs(store, pairs) == if pairs[i].key.Some? && pairs[i].target.Some? then ERROR else BAD_FORMAT
      {
        if i > 0 {
          assert GoodPair(store, pairs[0]) && FirstBad(store, rest, i - 1);
        }
      }
    }
  }

  // ---------- messages ----------

  datatype Done = Done(result: Result, state: State)

  // ch_process_message_pack_msg
  function Message(s: State, e: Event): Done {
    if e.kind != HELLO && !s.gotHello then Done(ERROR, s)
    else if e.kind == HELLO then
      if e.data.Nil? then Done(OK, s.(gotHello := true)) else Done(BAD_FORMAT, s)
    else if e.kind == GOODBYE then
      if !e.data.Nil? then Done(BAD_FORMAT, s)
      else if s.store == map[] || !e.disk then Done(ERROR, s)
      else Done(FINISHED, s)
    else if e.kind == LOG_INFO then Done(if e.data.Text? then OK else BAD_FORMAT, s)
    else if e.kind == LOG_ERROR then Done(if e.data.Text? then FINISHED else BAD_FORMAT, s)
    else if e.kind == DATAMAP then
      if !e.data.Tree? then Done(BAD_FORMAT, s)
      else
        var h := HashAll(s.store, Visit(e.data.root), e.fits);
        Done(h.result, s.(store := h.store))
    else if e.kind == LINKED_NAME then
      if !e.data.Pairs? || s.linked != [] || e.data.pairs == [] then Done(BAD_FORMAT, s)
      else
        var r := CheckPairs(s.store, e.data.pairs);
        if !r.OK? then Done(r, s)
        else
          CheckedPairs(s.store, e.data.pairs);
          Done(OK, s.(linked := Links(e.data.pairs)))
    else Done(BAD_FORMAT, s)
  }

  // A tree of datamaps that is accepted in this state.
  ghost predicate TreeFits(s: State, e: Event) {
    e.data.Tree? && Agreeing(s.store, Visit(e.data.root)) && Room(s.store, Visit(e.data.root), e.fits)
  }

  // All maps are taken in, or those before the first that is of another origin or that there
  // is no memory for.
  ghost predicate TreeAnswered(store: Store, ms: seq<Map>, fits: nat -> bool, r: Result, after: Store) {
    exists k: nat :: k <= |ms| && StoppedAt(store, ms, fits, r, after, k)
  }

  ghost predicate StoppedAt(store: Store, ms: seq<Map>, fits: nat -> bool, r: Result, after: Store, k: nat)
    requires k <= |ms|
  {
    && TakenIn(store, ms[..k], after) && Agreeing(store, ms[..k]) && Room(store, ms[..k], fits)
    && if k == |ms| then r.OK?
       else if !Agreeing(store, ms[..k + 1]) then r.ERROR?
       else r.OUT_OF_MEMORY? && !Room(store, ms[..k + 1], fits)
  }

  // Linked names that are accepted in this state: they come once, and all pairs are good.
  ghost predicate LinksFit(s: State, e: Event) {
    && e.data.Pairs? && s.linked == [] && e.data.pairs != []
    && forall i :: 0 <= i < |e.data.pairs| ==> GoodPair(s.store, e.data.pairs[i])
  }

  ghost predicate LinksAre(links: seq<Link>, pairs: seq<Pair>) {
    && |links| == |pairs|
    && forall i :: 0 <= i < |pairs| ==> pairs[i] == Pair(Some(links[i].key), Some(links[i].target))
  }

  // When each kind of message is accepted, and what it changes. Nothing comes before HELLO;
  // a message about a session's end finishes it, if what it asks for can be done.
  ghost predicate Answered(s: State, e: Event, r: Result, s': State) {
    && (!s.gotHello && e.kind != HELLO ==> r.ERROR? && s' == s)
    && (e.kind == HELLO ==> r == (if e.data.Nil? then OK else BAD_FORMAT))
    && (e.kind == HELLO ==> s' == if e.data.Nil? then State(true, s.store, s.linked) else s)
    && (s.gotHello ==> AnsweredAfterHello(s, e, r, s'))
  }

  ghost predicate AnsweredAfterHello(s: State, e: Event, r: Result, s': State) {
    && s'.gotHello && (e.kind != DATAMAP ==> s'.store == s.store) && (e.kind != LINKED_NAME ==> s'.linked == s.linked)
    && (e.kind == DATAMAP ==> (r.OK? <==> TreeFits(s, e)))
    && (e.kind == DATAMAP && r.OK? && e.data.Tree? ==> TakenIn(s.store, Visit(e.data.root), s'.store))
    && (e.kind == DATAMAP && e.data.Tree? ==> TreeAnswered(s.store, Visit(e.data.root), e.fits, r, s'.store))
    && (e.kind == DATAMAP && !e.data.Tree? ==> r.BAD_FORMAT? && s' == s)
    && (e.kind == LINKED_NAME ==> (r.OK? <==> LinksFit(s, e)) && (!r.OK? ==> r.ERROR? || r.BAD_FORMAT?))
    && (e.kind == LINKED_NAME ==> if r.OK? then LinksAre(s'.linked, e.data.pairs) else s'.linked == s.linked)
    && (e.kind == LOG_INFO ==> r == if e.data.Text? then OK else BAD_FORMAT)
    && (e.kind == LOG_ERROR ==> r == if e.data.Text? then FINISHED else BAD_FORMAT)
    && (e.kind == GOODBYE ==> (r.FINISHED? <==> e.data.Nil? && s.store != map[] && e.disk))
    && (e.kind == GOODBYE && !r.FINISHED? ==> r == if e.data.Nil? then ERROR else BAD_FORMAT)
    && (e.kind > GOODBYE ==> r.BAD_FORMAT?)
  }

  lemma {:induction false} MessageAnswered(s: State, e: Event)
    ensures Answered(s, e, Message(s, e).result, Message(s, e).state)
  {
    hide HashAll, CheckPairs, TreeFits, LinksFit, TreeAnswered, LinksAre;
    if s.gotHello && e.kind == DATAMAP && e.data.Tree? {
      TreeIsAnswered(s, e);
    } else if s.gotHello && e.kind == LINKED_NAME {
      LinksAnswered(s, e);
    } else if e.kind == DATAMAP {
      assert e.data.Tree? || !TreeFits(s, e) by { NoTree(s, e); }
    }
  }

  lemma {:induction false} NoTree(s: State, e: Event)
    ensures TreeFits(s, e) ==> e.data.Tree?
  {
  }

  lemma {:induction false} TreeIsAnswered(s: State, e: Event)
    requires e.data.Tree?
    ensures var ms := Visit(e.data.root); var h := HashAll(s.store, ms, e.fits);
      && (h.result.OK? <==> TreeFits(s, e)) && (h.result.OK? ==> TakenIn(s.store, ms, h.store))
      && TreeAnswered(s.store, ms, e.fits, h.result, h.store)
  {
    hide HashAll, Agreeing, Room, TakenIn, Visit, TreeAnswered;
    AllAnswered(s.store, Visit(e.data.root), e.fits);
  }

  lemma {:induction false} AllAnswered(store: Store, ms: seq<Map>, fits: nat -> bool)
    ensures var h := HashAll(store, ms, fits);
      && (h.result.OK? <==> Agreeing(store, ms) && Room(store, ms, fits))
      && (h.result.OK? ==> TakenIn(store, ms, h.store))
      && TreeAnswered(store, ms, fits, h.result, h.store)
  {
    hide HashAll, Agreeing, Room, TakenIn;
    var k := HashVerdict(store, ms, fits);
    assert ms[..|ms|] == ms;
    var h := HashAll(store, ms, fits);
    assert StoppedAt(store, ms, fits, h.result, h.store, k);
  }

  lemma {:induction false} LinksAnswered(s: State, e: Event)
    requires s.gotHello && e.kind == LINKED_NAME
    ensures var d := Message(s, e);
      && (d.result.OK? <==> LinksFit(s, e)) && (!d.result.OK? ==> d.result.ERROR? || d.result.BAD_FORMAT?)
      && d.state == s.(linked := d.state.linked)
      && (if d.result.OK? then LinksAre(d.state.linked, e.data.pairs) else d.state.linked == s.linked)
  {
    hide CheckPairs, GoodPair;
    if e.data.Pairs? {
      CheckedPairs(s.store, e.data.pairs);
      CheckErrors(s.store, e.data.pairs);
      if LinksFit(s, e) {
        PairsAre(s.store, e.data.pairs);
      }
    }
  }

  lemma {:induction false} CheckErrors(store: Store, pairs: seq<Pair>)
    ensures var r := CheckPairs(store, pairs); r.OK? || r.ERROR? || r.BAD_FORMAT?
    decreases |pairs|
  {
    if pairs != [] {
      CheckErrors(store, pairs[1..]);
    }
  }

  lemma {:induction false} PairsAre(store: Store, pairs: seq<Pair>)
    requires forall i :: 0 <= i < |pairs| ==> GoodPair(store, pairs[i])
    ensures forall i :: 0 <= i < |pairs| ==> pairs[i].key.Some? && pairs[i].target.Some?
    ensures LinksAre(Links(pairs), pairs)
  {
  }

  // ch_msg_ctx_process: a message that the state refers to is kept, which takes memory.
  function Step(s: State, e: Event): (d: Done) {
    var d := Message(s, e);
    if d.result.OK? && d.state.(gotHello := s.gotHello) != s && !e.spare then d.(result := OUT_OF_MEMORY) else d
  }

  // Messages are processed until one is not OK.
  function Run(s: State, events: seq<Event>): Done
    decreases |events|
  {
    if events == [] then Done(OK, s)
    else
      var d := Step(s, events[0]);
      if d.result.OK? then Run(d.state, events[1..]) else d
  }

  // A session goes on after a message exactly if it is one of these. What brings something
  // new has to be kept, which takes memory.
  ghost predicate GoesOn(s: State, e: Event) {
    || (e.kind == HELLO && e.data.Nil?)
    || (s.gotHello && e.kind == LOG_INFO && e.data.Text?)
    || (s.gotHello && e.kind == DATAMAP && TreeFits(s, e) && (e.spare || NewNames(s.store, Visit(e.data.root)) == {}))
    || (s.gotHello && e.kind == LINKED_NAME && LinksFit(s, e) && e.spare)
  }

  lemma {:induction false} StepGoesOn(s: State, e: Event)
    ensures Step(s, e).result.OK? <==> GoesOn(s, e)
  {
    hide Message, TreeFits, LinksFit, TreeAnswered, TakenIn, Visit, NewNames;
    MessageAnswered(s, e);
    NoTree(s, e);
    var d := Message(s, e);
    if s.gotHello && e.kind == DATAMAP && d.result.OK? {
      var ms := Visit(e.data.root);
      AnyNew(s.store, ms, d.state.store);
    } else if s.gotHello && e.kind == LINKED_NAME && d.result.OK? {
      SomeLinks(s, e, d.state.linked);
    }
  }

  lemma {:induction false} AnyNew(store: Store, ms: seq<Map>, after: Store)
    requires TakenIn(store, ms, after)
    ensures after == store <==> NewNames(store, ms) == {}
  {
    if NewNames(store, ms) == {} {
      assert after.Keys == store.Keys;
    } else {
      var n :| n in NewNames(store, ms);
      assert n in after.Keys && n !in store.Keys;
    }
  }

  lemma {:induction false} SomeLinks(s: State, e: Event, links: seq<Link>)
    requires LinksFit(s, e) && LinksAre(links, e.data.pairs)
    ensures links != s.linked
  {
  }

  // The maps that the messages bring, in the order of the visits.
  function Brought(events: seq<Event>): seq<Map>
    decreases |events|
  {
    if events == [] then []
    else
      (if events[0].kind == DATAMAP && events[0].data.Tree? then Visit(events[0].data.root) else [])
      + Brought(events[1..])
  }

  lemma {:induction false} TakenConcat(store: Store, a: seq<Map>, mid: Store, b: seq<Map>, after: Store)
    requires TakenIn(store, a, mid) && TakenIn(mid, b, after)
    ensures TakenIn(store, a + b, after)
  {
    hide NewNames, IsFirst;
    NamesConcat(store, a, mid, b);
    var ms := a + b;
    forall n | n in store
      ensures n in after && after[n] == store[n]
    {
      assert n in mid && mid[n] == store[n];
    }
    forall i: nat | i < |ms| && IsFirst(ms, i) && ms[i].name !in store
      ensures Maps(after, ms[i].name, ms[i])
    {
      FirstOfConcat(a, b, i);
      if i < |a| {
        assert Maps(mid, ms[i].name, ms[i]);
      } else {
        assert ms[i] == b[i - |a|];
        NotNew(store, a, ms[i].name);
      }
    }
  }

  lemma {:induction false} NamesConcat(store: Store, a: seq<Map>, mid: Store, b: seq<Map>)
    requires mid.Keys == store.Keys + NewNames(store, a)
    ensures store.Keys + NewNames(store, a + b) == mid.Keys + NewNames(mid, b)
  {
    forall n | n in NewNames(store, a + b)
      ensures n in mid.Keys + NewNames(mid, b)
    {
      var m :| m in a + b && m.name == n;
      if m in a {
        assert n in NewNames(store, a);
      }
    }
  }

  lemma {:induction false} NotNew(store: Store, a: seq<Map>, n: Name)
    requires n !in store && forall j :: 0 <= j < |a| ==> a[j].name != n
    ensures n !in NewNames(store, a)
  {
  }

  lemma {:induction false} FirstOfConcat(a: seq<Map>, b: seq<Map>, i: nat)
    requires i < |a + b| && IsFirst(a + b, i)
    ensures i < |a| ==> IsFirst(a, i)
    ensures i >= |a| ==> IsFirst(b, i - |a|) && forall j :: 0 <= j < |a| ==> a[j].name != (a + b)[i].name
  {
    var ms := a + b;
    assert forall j :: 0 <= j < |a| ==> ms[j] == a[j];
    assert forall j :: 0 <= j < |b| ==> b[j] == ms[|a| + j];
  }

  // After messages that were all accepted, what is stored is the first map of each name that
  // they brought, and nothing else.
  lemma {:induction false} RunTakesIn(s: State, events: seq<Event>)
    requires Run(s, events).result.OK?
    ensures TakenIn(s.store, Brought(events), Run(s, events).state.store)
    decreases |events|
  {
    hide Visit, Step, TakenIn;
    if events == [] {
      NothingNew(s.store, n => true);
    } else {
      var e := events[0];
      var d := Step(s, e);
      RunTakesIn(d.state, events[1..]);
      var ms := if e.kind == DATAMAP && e.data.Tree? then Visit(e.data.root) else [];
      StepTakesIn(s, e);
      TakenConcat(s.store, ms, d.state.store, Brought(events[1..]), Run(s, events).state.store);
    }
  }

  lemma {:induction false} StepTakesIn(s: State, e: Event)
    requires Step(s, e).result.OK?
    ensures TakenIn(s.store, if e.kind == DATAMAP && e.data.Tree? then Visit(e.data.root) else [],
              Step(s, e).state.store)
  {
    hide Message, TreeFits, LinksFit, TreeAnswered, TakenIn, Visit;
    MessageAnswered(s, e);
    NothingNew(s.store, e.fits);
    if e.kind == DATAMAP {
      assert e.data.Tree? by { NoTree(s, e); }
    }
  }

  // ---------- what holds while messages are accepted ----------

  predicate Known(store: Store, m: Map) {
    m.name in store && Agrees(store[m.name], m)
  }

  // Every map that a stored tree leads to is stored, with its module and offset.
  ghost predicate Stored(store: Store) {
    && (forall n :: n in store ==> store[n].name == n)
    && (forall n, x :: n in store && x in Visit(store[n]) ==> Known(store, x))
  }

  ghost predicate Safe(s: State) {
    && (!s.gotHello ==> s == INITIAL)
    && Stored(s.store)
    && (forall k :: 0 <= k < |s.linked| ==> s.linked[k].target in s.store)
  }

  // What one store knows, a store after it knows.
  ghost predicate Extends(store': Store, store: Store) {
    forall n :: n in store ==> n in store' && store'[n] == store[n]
  }

  lemma {:induction false} HashAllKnows(store: Store, ms: seq<Map>, fits: nat -> bool)
    requires forall n :: n in store ==> store[n].name == n
    ensures var h := HashAll(store, ms, fits);
      && Extends(h.store, store)
      && (forall n :: n in h.store ==> h.store[n].name == n && (n in store || h.store[n] in ms))
      && (h.result.OK? ==> forall x :: x in ms ==> Known(h.store, x))
    decreases |ms|
  {
    if ms != [] {
      var h := HashOne(store, ms[0], fits);
      if h.result.OK? {
        assert Known(h.store, ms[0]) && ms == [ms[0]] + ms[1..];
        HashAllKnows(h.store, ms[1..], fits);
      }
    }
  }

  // Storing a whole tree keeps the store closed.
  lemma {:induction false} TreeStored(store: Store, root: Map, fits: nat -> bool)
    requires Stored(store)
    ensures var h := HashAll(store, Visit(root), fits);
      && Extends(h.store, store)
      && (h.result.OK? ==> Stored(h.store) && forall x :: x in Visit(root) ==> Known(h.store, x))
  {
    hide HashAll, Visit;
    HashAllKnows(store, Visit(root), fits);
    var h := HashAll(store, Visit(root), fits);
    if h.result.OK? {
      forall n, x | n in h.store && x in Visit(h.store[n])
        ensures Known(h.store, x)
      {
        if n in store {
          assert Known(store, x);
        } else {
          VisitTransitive(root, h.store[n], x);
        }
      }
    }
  }

  // What a visited map leads to is visited.
  lemma {:induction false} VisitTransitive(m: Map, y: Map, x: Map)
    requires y in Visit(m) && x in Visit(y)
    ensures x in Visit(m)
    decreases m, 1
  {
    if y != m {
      if m.base.Some? && y in Visit(m.base.value) {
        VisitTransitive(m.base.value, y, x);
      } else {
        FieldsTransitive(m.fields, y, x);
      }
    }
  }

  lemma {:induction false} FieldsTransitive(fields: seq<Desc>, y: Map, x: Map)
    requires y in VisitFields(fields) && x in Visit(y)
    ensures x in VisitFields(fields)
    decreases fields, 0
  {
    if fields[0].embedded.Some? && y in Visit(fields[0].embedded.value) {
      VisitTransitive(fields[0].embedded.value, y, x);
    } else {
      FieldsTransitive(fields[1..], y, x);
    }
  }

  lemma {:induction false} StepSafe(s: State, e: Event)
    requires Safe(s)
    ensures var d := Step(s, e);
      && (d.result.OK? ==> Safe(d.state) && d.state.gotHello && Extends(d.state.store, s.store))
      && (d.result.OK? && e.kind == DATAMAP ==> e.data.Tree?)
      && (d.result.OK? && e.kind == DATAMAP ==> forall x :: x in Visit(e.data.root) ==> Known(d.state.store, x))
      && (d.result.OK? && !s.gotHello ==> e.kind == HELLO)
  {
    hide Visit, HashAll, Stored;
    if s.gotHello && e.kind == DATAMAP && e.data.Tree? {
      TreeStored(s.store, e.data.root, e.fits);
    } else if s.gotHello && e.kind == LINKED_NAME && e.data.Pairs? {
      CheckedPairs(s.store, e.data.pairs);
    }
  }

  // Over any run whose messages were all accepted: the first was HELLO, the state is safe,
  // and no map that was ever part of a message differs from what is stored under its name.
  lemma {:induction false} RunSafe(s: State, events: seq<Event>)
    requires Safe(s) && Run(s, events).result.OK?
    ensures var s' := Run(s, events).state;
      && Safe(s') && Extends(s'.store, s.store)
      && (events != [] ==> s'.gotHello && (!s.gotHello ==> events[0].kind == HELLO))
      && forall i :: 0 <= i < |events| && events[i].kind == DATAMAP ==>
          events[i].data.Tree? && forall x :: x in Visit(events[i].data.root) ==> Known(s'.store, x)
    decreases |events|
  {
    hide Visit, Step, Safe;
    if events == [] {
      assert Run(s, events) == Done(OK, s);
    } else {
      StepSafe(s, events[0]);
      var s1 := Step(s, events[0]).state;
      RunSafe(s1, events[1..]);
      var s' := Run(s, events).state;
      forall i | 0 <= i < |events| && events[i].kind == DATAMAP
        ensures events[i].data.Tree? && forall x :: x in Visit(events[i].data.root) ==> Known(s'.store, x)
      {
        if i > 0 {
          assert events[i] == events[1..][i - 1];
        }
      }
    }
  }

  // ---------- linked names and datamaps ----------

  // No linked name is that of a datamap; the lookup table of the loader depends on it.
  ghost predicate LinkedApart(s: State) {
    forall k :: 0 <= k < |s.linked| ==> s.linked[k].key !in s.store
  }

  // Linked names are compared with the datamaps that came before. They stay apart exactly
  // if no datamap that comes later brings one of the names.
  lemma {:induction false} DatamapAfterLinks(s: State, e: Event)
    requires Safe(s) && LinkedApart(s) && e.kind == DATAMAP && Step(s, e).result.OK?
    ensures LinkedApart(Step(s, e).state) <==>
      forall k, x :: 0 <= k < |s.linked| && x in Visit(e.data.root) ==> x.name != s.linked[k].key
  {
    hide Visit, HashAll, Stored;
    HashAllKnows(s.store, Visit(e.data.root), e.fits) by { StoredNames(s.store); }
    var s' := Step(s, e).state;
    var ms := Visit(e.data.root);
    if k, x :| 0 <= k < |s.linked| && x in ms && x.name == s.linked[k].key {
      assert Known(s'.store, x);
      assert s'.linked[k].key in s'.store;
    }
  }

  lemma {:induction false} StoredNames(store: Store)
    requires Stored(store)
    ensures forall n :: n in store ==> store[n].name == n
  {
  }

  lemma {:induction false} LinksAreApart(s: State, e: Event)
    requires Safe(s) && e.kind == LINKED_NAME && Step(s, e).result.OK?
    ensures LinkedApart(Step(s, e).state)
  {
    CheckedPairs(s.store, e.data.pairs);
  }

  // A datamap of this name comes with the message.
  ghost predicate Brings(e: Event, name: Name) {
    e.kind == DATAMAP && e.data.Tree? && exists x :: x in Visit(e.data.root) && x.name == name
  }

  ghost predicate BroughtBy(links: seq<Link>, events: seq<Event>) {
    exists k, j :: 0 <= k < |links| && 0 <= j < |events| && Brings(events[j], links[k].key)
  }

  // The links that an accepted message makes.
  function LinksOf(e: Event): seq<Link> {
    if e.kind == LINKED_NAME && e.data.Pairs? && (forall i :: 0 <= i < |e.data.pairs| ==>
        e.data.pairs[i].key.Some? && e.data.pairs[i].target.Some?)
    then Links(e.data.pairs) else []
  }

  ghost predicate LaterBrought(events: seq<Event>) {
    exists i :: 0 <= i < |events| && BroughtBy(LinksOf(events[i]), events[i + 1..])
  }

  lemma {:induction false} BroughtFirst(links: seq<Link>, events: seq<Event>)
    requires events != []
    ensures BroughtBy(links, events) <==>
      (exists k :: 0 <= k < |links| && Brings(events[0], links[k].key)) || BroughtBy(links, events[1..])
  {
    hide Brings;
    if k, j :| 0 <= k < |links| && 0 <= j < |events| && Brings(events[j], links[k].key) {
      assert j > 0 ==> events[j] == events[1..][j - 1];
    }
    if k, j :| 0 <= k < |links| && 0 <= j < |events[1..]| && Brings(events[1..][j], links[k].key) {
      assert events[1..][j] == events[j + 1];
    }
  }

  lemma {:induction false} LaterFirst(events: seq<Event>)
    requires events != []
    ensures LaterBrought(events) <==> BroughtBy(LinksOf(events[0]), events[1..]) || LaterBrought(events[1..])
  {
    hide BroughtBy, LinksOf;
    if i :| 0 <= i < |events| && BroughtBy(LinksOf(events[i]), events[i + 1..]) {
      if i > 0 {
        assert events[1..][i - 1] == events[i] && events[1..][i - 1 + 1..] == events[i + 1..];
      }
    }
    if i :| 0 <= i < |events[1..]| && BroughtBy(LinksOf(events[1..][i]), events[1..][i + 1..]) {
      assert events[1..][i] == events[i + 1] && events[1..][i + 1..] == events[i + 1 + 1..];
    }
    assert events[0 + 1..] == events[1..];
  }

  // One accepted message: what is linked after it, and whether that is still apart.
  lemma {:induction false} LinksStep(s: State, e: Event)
    requires Safe(s) && Step(s, e).result.OK?
    ensures var s' := Step(s, e).state;
      && (if e.kind == LINKED_NAME then s.linked == [] && s'.linked == LinksOf(e)
          else s'.linked == s.linked && LinksOf(e) == [])
      && (LinkedApart(s') <==> LinkedApart(s) && forall k :: 0 <= k < |s.linked| ==> !Brings(e, s.linked[k].key))
  {
    hide Visit, HashAll, Stored;
    StepSafe(s, e);
    if e.kind == LINKED_NAME {
      LinksAreApart(s, e);
      CheckedPairs(s.store, e.data.pairs);
    } else if e.kind == DATAMAP {
      if LinkedApart(s) {
        DatamapAfterLinks(s, e);
      }
    }
  }

  // Over any accepted run from a safe state, linked names stay apart from datamaps exactly if
  // no datamap that comes after them brings one of the names.
  lemma {:induction false} LinksApartFrom(s: State, events: seq<Event>)
    requires Safe(s) && Run(s, events).result.OK?
    ensures LinkedApart(Run(s, events).state) <==>
      LinkedApart(s) && !BroughtBy(s.linked, events) && !LaterBrought(events)
    decreases |events|
  {
    hide Safe, Step, LinkedApart, BroughtBy, LaterBrought, LinksOf, Brings;
    if events == [] {
      NothingBrought(s.linked);
    } else {
      var e := events[0];
      StepSafe(s, e);
      LinksStep(s, e);
      LinksApartFrom(Step(s, e).state, events[1..]);
      BroughtFirst(s.linked, events);
      LaterFirst(events);
      NoLinksBrought(events[1..]);
    }
  }

  lemma {:induction false} NothingBrought(links: seq<Link>)
    ensures !BroughtBy(links, []) && !LaterBrought([])
  {
  }

  lemma {:induction false} NoLinksBrought(events: seq<Event>)
    ensures !BroughtBy([], events)
  {
  }

  // After any accepted run, linked names are apart from all datamaps exactly if no datamap
  // that came after the linked names has, or leads to a map that has, one of the names.
  lemma {:induction false} RunLinksApart(events: seq<Event>)
    requires Run(INITIAL, events).result.OK?
    ensures LinkedApart(Run(INITIAL, events).state) <==> !LaterBrought(events)
  {
    NoLinksBrought(events);
    LinksApartFrom(INITIAL, events);
  }

  // Accepted: HELLO, datamap c, c linked as d, datamap d.
  lemma {:induction false} LinkedNameTaken()
    ensures var c, d := Map([99], [], 0, None, []), Map([100], [], 0, None, []);
      var ok := (n: nat) => true;
      var events := [
        Event(HELLO, Nil, ok, true, true),
        Event(DATAMAP, Tree(c), ok, true, true),
        Event(LINKED_NAME, Pairs([Pair(Some([100]), Some([99]))]), ok, true, true),
        Event(DATAMAP, Tree(d), ok, true, true)];
      Run(INITIAL, events).result.OK? && !LinkedApart(Run(INITIAL, events).state)
  {
    var c, d := Map([99], [], 0, None, []), Map([100], [], 0, None, []);
    var ok := (n: nat) => true;
    var e0 := Event(HELLO, Nil, ok, true, true);
    var e1 := Event(DATAMAP, Tree(c), ok, true, true);
    var e2 := Event(LINKED_NAME, Pairs([Pair(Some([100]), Some([99]))]), ok, true, true);
    var e3 := Event(DATAMAP, Tree(d), ok, true, true);
    var s1 := State(true, map[], []);
    var s2 := State(true, map[c.name := c], []);
    var s3 := s2.(linked := [Link([100], [99])]);
    var s4 := s3.(store := map[c.name := c, d.name := d]);
    HashSingle(map[], c, ok);
    HashSingle(s2.store, d, ok);
    assert Step(INITIAL, e0) == Done(OK, s1);
    assert Step(s1, e1) == Done(OK, s2);
    assert [100] != [99] by { assert [100][0] != [99][0]; }
    assert Links(e2.data.pairs) == [Link([100], [99])];
    assert Step(s2, e2) == Done(OK, s3);
    assert Step(s3, e3) == Done(OK, s4);
    RunStep(s3, e3, []);
    RunStep(s2, e2, [e3]);
    RunStep(s1, e1, [e2, e3]);
    RunStep(INITIAL, e0, [e1, e2, e3]);
    assert [e0] + [e1, e2, e3] == [e0, e1, e2, e3] && [e1] + [e2, e3] == [e1, e2, e3] && [e2] + [e3] == [e2, e3];
    assert [e3] + [] == [e3];
    assert s4.linked[0].key in s4.store;
  }

  lemma {:induction false} HashSingle(store: Store, m: Map, fits: nat -> bool)
    requires m.base.None? && m.fields == []
    ensures HashAll(store, Visit(m), fits) == HashOne(store, m, fits)
  {
    assert Visit(m) == [m] && [m][1..] == [];
  }

  lemma {:induction false} RunStep(s: State, e: Event, events: seq<Event>)
    requires Step(s, e).result.OK?
    ensures Run(s, [e] + events) == Run(Step(s, e).state, events)
  {
    assert ([e] + events)[1..] == events;
  }

  // ---------- what is written ----------

  // The stored trees in some order.
  ghost predicate Listing(ms: seq<Map>, store: Store) {
    multiset(ms) == multiset(store.Values)
  }

  ghost predicate InOrder(ms: seq<Map>, store: Store) {
    ms != [] && Ordered(ms) && Listing(ms, store)
  }

  // Each stored map is listed once.
  lemma {:induction false} ListedOnce(ms: seq<Map>, store: Store)
    requires Listing(ms, store) && forall n :: n in store ==> store[n].name == n
    ensures forall n :: n in store ==> store[n] in ms
    ensures forall i :: 0 <= i < |ms| ==> ms[i].name in store && store[ms[i].name] == ms[i]
    ensures forall i, j :: 0 <= i < j < |ms| ==> ms[i].name != ms[j].name
  {
    forall n | n in store
      ensures store[n] in ms
    {
      assert store[n] in store.Values;
      assert store[n] in multiset(ms);
    }
    forall i | 0 <= i < |ms|
      ensures ms[i].name in store && store[ms[i].name] == ms[i]
    {
      assert ms[i] in multiset(ms);
      assert ms[i] in store.Values;
    }
    forall i, j | 0 <= i < j < |ms|
      ensures ms[i].name != ms[j].name
    {
      if ms[i] == ms[j] {
        CountedTwice(ms, i, j);
      }
    }
  }

  lemma {:induction false} CountedTwice(ms: seq<Map>, i: nat, j: nat)
    requires i < j < |ms| && ms[i] == ms[j]
    ensures multiset(ms)[ms[i]] >= 2
  {
    assert ms == ms[..j] + ms[j..];
    assert ms[i] in ms[..j] && ms[j] in ms[j..];
  }

  // Equal names came with equal trees.
  ghost predicate SameTrees(store: Store) {
    forall n, c :: n in store && Child(c, store[n]) && c.name in store ==> store[c.name] == c
  }

  lemma {:induction false} ListingClosed(ms: seq<Map>, store: Store)
    requires Stored(store) && SameTrees(store) && Listing(ms, store)
    ensures Closed(ms)
  {
    ListedOnce(ms, store);
    forall j, c | 0 <= j < |ms| && Child(c, ms[j])
      ensures c in ms
    {
      ChildCount(c, ms[j]);
      assert Visit(c)[0] == c;
      assert c in Visit(store[ms[j].name]);
      assert Known(store, c);
    }
  }
}

module Receiver {
  import opened Wrappers
  import opened Bytes
  import opened Datamaps
  import opened DatamapOrder
  import F = ReceiverSpec
  import opened ReceiverSpec

  class Receiver {
    var gotHello: bool
    var store: Store
    var linked: seq<Link>
    // the datamaps that were written, in order
    var output: Option<seq<Map>>

    function View(): State
      reads this
    {
      State(gotHello, store, linked)
    }

    constructor ()
      ensures View() == INITIAL && output == None
    {
      gotHello, store, linked, output := false, map[], [], None;
    }

    method VerifyAndHash(m: Map, fits: nat -> bool) returns (r: Result)
      modifies this`store
      ensures Hashed(r, store) == HashOne(old(store), m, fits)
    {
      if m.name !in store {
        if !fits(|store|) {
          return OUT_OF_MEMORY;
        }
        store := store[m.name := m];
        return OK;
      }
      r := if Agrees(store[m.name], m) then OK else ERROR;
    }

    // ch_recurse_visit_datamaps with ch_verify_and_hash_dm_cb
    method HashTree(m: Map, fits: nat -> bool) returns (r: Result)
      modifies this`store
      ensures Hashed(r, store) == HashAll(old(store), Visit(m), fits)
      ensures r.OK? <==> Agreeing(old(store), Visit(m)) && Room(old(store), Visit(m), fits)
      ensures TreeAnswered(old(store), Visit(m), fits, r, store)
      decreases m, 1
    {
      hide HashAll, HashOne, VisitFields, Agreeing, Room, TreeAnswered;
      AllAnswered(store, Visit(m), fits);
      HashFirst(store, m, fits);
      r := VerifyAndHash(m, fits);
      if r != OK {
        return;
      }
      if m.base.Some? {
        HashConcat(store, Visit(m.base.value), VisitFields(m.fields), fits);
        r := HashTree(m.base.value, fits);
        if r != OK {
          return;
        }
      }
      r := HashFields(m.fields, fits);
    }

    method HashFields(fields: seq<Desc>, fits: nat -> bool) returns (r: Result)
      modifies this`store
      ensures Hashed(r, store) == HashAll(old(store), VisitFields(fields), fits)
      decreases fields, 0
    {
      hide HashAll, Visit;
      r := OK;
      HashNone(store, fits);
      assert fields[0..] == fields;
      for i := 0 to |fields|
        invariant r == OK
        invariant HashAll(store, VisitFields(fields[i..]), fits) == HashAll(old(store), VisitFields(fields), fits)
      {
        assert fields[i..][1..] == fields[i + 1..];
        if fields[i].embedded.Some? {
          HashConcat(store, Visit(fields[i].embedded.value), VisitFields(fields[i + 1..]), fits);
          r := HashTree(fields[i].embedded.value, fits);
          if r != OK {
            return;
          }
        } else {
          assert [] + VisitFields(fields[i + 1..]) == VisitFields(fields[i + 1..]);
        }
      }
      HashNone(store, fits);
    }

    static lemma {:induction false} HashNone(store: Store, fits: nat -> bool)
      ensures HashAll(store, [], fits) == Hashed(OK, store)
    {
    }

    static lemma {:induction false} HashFirst(store: Store, m: Map, fits: nat -> bool)
      ensures var h := HashOne(store, m, fits);
        var rest := (if m.base.Some? then Visit(m.base.value) else []) + VisitFields(m.fields);
        && HashAll(store, Visit(m), fits) == (if h.result.OK? then HashAll(h.store, rest, fits) else h)
        && (m.base.None? ==> rest == VisitFields(m.fields))
    {
      hide HashOne, VisitFields;
      var rest := (if m.base.Some? then Visit(m.base.value) else []) + VisitFields(m.fields);
      assert Visit(m) == [m] + rest;
      assert Visit(m)[1..] == rest;
    }

    method VerifyLinkedNames(pairs: seq<Pair>) returns (r: Result)
      modifies this`linked
      ensures r == if old(linked) != [] || pairs == [] then BAD_FORMAT else CheckPairs(store, pairs)
      ensures r.OK? <==> old(linked) == [] && pairs != [] && forall i :: 0 <= i < |pairs| ==> GoodPair(store, pairs[i])
      ensures r.OK? ==> LinksAre(linked, pairs) && linked == Links(pairs)
      ensures !r.OK? ==> linked == old(linked)
    {
      if linked != [] || pairs == [] {
        return BAD_FORMAT;
      }
      assert pairs[0..] == pairs;
      for i := 0 to |pairs|
        invariant CheckPairs(store, pairs[i..]) == CheckPairs(store, pairs)
        invariant linked == old(linked)
      {
        assert pairs[i..][1..] == pairs[i + 1..];
        if pairs[i].key.None? || pairs[i].target.None? {
          return BAD_FORMAT;
        }
        if pairs[i].key.value in store || pairs[i].target.value !in store {
          return ERROR;
        }
      }
      CheckedPairs(store, pairs);
      linked := Links(pairs);
      r := OK;
    }

    // hashmap_iter over the table, in an order that is not known
    method Items() returns (ms: seq<Map>)
      requires forall n :: n in store ==> store[n].name == n
      ensures Listing(ms, store)
    {
      ms := [];
      var todo := store.Keys;
      ghost var done: set<Map> := {};
      while todo != {}
        invariant todo <= store.Keys && multiset(ms) == multiset(done)
        invariant done == set n | n in store && n !in todo :: store[n]
      {
        var n :| n in todo;
        todo := todo - {n};
        ms := ms + [store[n]];
        assert store[n] !in done;
        done := done + {store[n]};
      }
      assert done == store.Values;
    }

    // ch_write_all_to_file: the order is all that is decided here.
    method WriteAllToFile(disk: bool) returns (r: Result)
      requires forall n :: n in store ==> store[n].name == n
      modifies this`output
      ensures r == if store == map[] || !disk then ERROR else FINISHED
      ensures r.FINISHED? ==> output.Some? && InOrder(output.value, store)
      ensures !r.FINISHED? ==> output == old(output)
    {
      if |store| == 0 {
        return ERROR;
      }
      var ms := Items();
      var sorted := SortMaps(ms);
      if !disk {
        return ERROR;
      }
      NotEmpty(sorted, store);
      output := Some(sorted);
      r := FINISHED;
    }

    method ProcessMessage(e: Event) returns (r: Result)
      requires forall n :: n in store ==> store[n].name == n
      modifies this
      ensures Done(r, View()) == F.Message(old(View()), e)
      ensures Answered(old(View()), e, r, View())
      ensures output != old(output) ==> e.kind == GOODBYE && r.FINISHED?
      ensures e.kind == GOODBYE && r.FINISHED? ==> old(gotHello) && output.Some? && InOrder(output.value, store)
    {
      hide Visit, HashAll, CheckPairs, Ordered, Answered;
      MessageAnswered(View(), e);
      if e.kind != HELLO && !gotHello {
        return ERROR;
      }
      r := BAD_FORMAT;
      if e.kind == HELLO {
        if e.data.Nil? {
          gotHello := true;
          r := OK;
        }
      } else if e.kind == GOODBYE {
        if e.data.Nil? {
          r := WriteAllToFile(e.disk);
        }
      } else if e.kind == LOG_INFO {
        r := if e.data.Text? then OK else BAD_FORMAT;
      } else if e.kind == LOG_ERROR {
        r := if e.data.Text? then FINISHED else BAD_FORMAT;
      } else if e.kind == DATAMAP {
        if e.data.Tree? {
          r := HashTree(e.data.root, e.fits);
        }
      } else if e.kind == LINKED_NAME {
        if e.data.Pairs? {
          r := VerifyLinkedNames(e.data.pairs);
        }
      }
    }

    static lemma {:induction false} NotEmpty(ms: seq<Map>, store: Store)
      requires store != map[] && Listing(ms, store)
      ensures ms != []
    {
      var n :| n in store;
      assert store[n] in store.Values;
      assert store[n] in multiset(ms);
    }

    // ch_msg_ctx_process
    method Process(e: Event) returns (ok: bool)
      requires Safe(View())
      modifies this
      ensures View() == Step(old(View()), e).state && (ok <==> Step(old(View()), e).result.OK?)
      ensures ok <==> GoesOn(old(View()), e)
      ensures ok ==> Safe(View())
      ensures output != old(output) ==> !ok && e.kind == GOODBYE && old(gotHello) && store == old(store)
      ensures output != old(output) ==> output.Some? && InOrder(output.value, store)
    {
      hide Visit, HashAll, CheckPairs, Ordered, F.Message, Answered, GoesOn;
      StepSafe(View(), e);
      StepGoesOn(View(), e);
      var s := View();
      StoredNames(store);
      var r := ProcessMessage(e);
      if e.kind == GOODBYE {
        GoodbyeKeeps(s, e);
      }
      ok := r == OK;
      if r == OK && View().(gotHello := s.gotHello) != s && !e.spare {
        ok := false;
      }
    }

    static lemma {:induction false} GoodbyeKeeps(s: State, e: Event)
      requires e.kind == GOODBYE
      ensures F.Message(s, e).state == s && !F.Message(s, e).result.OK?
    {
    }
  }
}
