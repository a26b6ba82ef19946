/**
 The delegation escrow of keria/app/delegating.py: an event waits for its witness receipts in
 dpwe, then for the anchor of its delegator in dune, and then has a record in cdel.

 Taken from the database library: pin overwrites, put keeps what is there, rem removes,
 getItemIter walks a snapshot in an order of its own, a cloned event is the event stored, and
 sends succeed. Digests do not collide, so a digest is taken to hold its event.
 */
module Delegating {
  import opened Wrappers

  type Pre(==, !new) = int

  datatype Event = Event(pre: Pre, sn: nat, body: int) {
    function Key(): Key {
      (pre, Said(this))
    }
  }

  datatype Said = Said(event: Event)

  type Key = (Pre, Said)

  datatype Seal = Seal(i: Pre, s: nat, d: Said)

  // A local identifier: its delegator, the sequence number of its latest event, how many
  // witnesses it has, the member that signs for it if it is a group, and its own events.
  datatype Hab = Hab(delpre: Option<Pre>, sn: nat, wits: nat, mhab: Option<Pre>, own: map<nat, Event>)

  // What others write: the identifiers known, receipts counted by event, the cues of the
  // receiptor, and the anchors that delegators have published.
  datatype World = World(habs: map<Pre, Hab>, kevers: set<Pre>, receipts: map<Key, nat>, cues: seq<(Pre, nat)>,
                         anchors: set<(Pre, Seal)>) {
    function Receipts(k: Key): nat {
      if k in receipts then receipts[k] else 0
    }
  }

  datatype Deed =
    | Asked(event: Event)
    | Sent(event: Event, sender: Pre, dest: Option<Pre>, receipts: nat, wits: nat)
    | Found(event: Event, delegator: Pre, seal: Seal)

  datatype State = State(dpwe: map<Key, Event>, dune: map<Key, Event>, cdel: map<(Pre, nat), Said>, proxy: Option<Pre>,
                         msgs: seq<(Pre, nat)>, trace: seq<Deed>)

  datatype Outcome = Done | NotLocal | NoDelegator | NoEvent | NoProxy | KeyError

  // ---------------------------------------------------------------------
  // The code as functions
  // ---------------------------------------------------------------------

  function Delegate(w: World, s: State, pre: Pre, sn: Option<nat>, proxy: Option<Pre>): (State, Outcome) {
    if pre !in w.habs then (s, NotLocal)
    else
      var t := if proxy.Some? then s.(proxy := proxy) else s;
      var hab := w.habs[pre];
      var n := if sn.Some? then sn.value else hab.sn;
      if hab.delpre == None || hab.delpre.value !in w.kevers then (t, NoDelegator)
      else if n !in hab.own then (t, NoEvent)
      else
        var e := hab.own[n];
        (t.(msgs := t.msgs + [(pre, e.sn)], dpwe := t.dpwe[e.Key() := e], trace := t.trace + [Asked(e)]), Done)
  }

  datatype Answer = Yes | No | Invalid

  function Completed(s: State, pre: Pre, sn: nat, said: Option<Said>): Answer {
    if (pre, sn) !in s.cdel then No
    else if said.Some? && s.cdel[(pre, sn)] != said.value then Invalid
    else Yes
  }

  // All receipts are in, and the receiptor has said so unless there are no witnesses.
  predicate Receipted(w: World, e: Event)
    requires e.pre in w.habs
  {
    var wits := w.habs[e.pre].wits;
    w.Receipts(e.Key()) == wits && (wits > 0 ==> (e.pre, e.sn) in w.cues)
  }

  function Sender(w: World, proxy: Option<Pre>, e: Event): Option<Pre>
    requires e.pre in w.habs
  {
    var hab := w.habs[e.pre];
    if hab.mhab.Some? then hab.mhab
    else if proxy.Some? then proxy
    else if hab.sn > 0 then Some(e.pre)
    else None
  }

  // One entry of processPartialWitnessEscrow.
  function SendEntry(w: World, s: State, e: Event): (State, Outcome) {
    if e.pre !in w.habs then (s, KeyError)
    else if !Receipted(w, e) then (s, Done)
    else
      var sender := Sender(w, s.proxy, e);
      if sender == None then (s, NoProxy)
      else
        var hab := w.habs[e.pre];
        (s.(dpwe := s.dpwe - {e.Key()}, dune := s.dune[e.Key() := e],
            trace := s.trace + [Sent(e, sender.value, hab.delpre, w.Receipts(e.Key()), hab.wits)]), Done)
  }

  // The entries in the order of the walk, up to the first that raises.
  function WitnessPass(w: World, s: State, walk: seq<Event>): (State, Outcome)
    decreases |walk|
  {
    if walk == [] then (s, Done)
    else
      var (t, o) := SendEntry(w, s, walk[0]);
      if o != Done then (t, o) else WitnessPass(w, t, walk[1..])
  }

  // One entry of processUnanchoredEscrow.
  function AnchorEntry(w: World, s: State, e: Event): (State, Outcome) {
    if e.pre !in w.habs || w.habs[e.pre].delpre == None || w.habs[e.pre].delpre.value !in w.kevers then (s, KeyError)
    else
      var delegator, seal := w.habs[e.pre].delpre.value, Seal(e.pre, e.sn, Said(e));
      if (delegator, seal) !in w.anchors then (s, Done)
      else
        var c := if (e.pre, e.sn) in s.cdel then s.cdel else s.cdel[(e.pre, e.sn) := Said(e)];
        (s.(cdel := c, dune := s.dune - {e.Key()}, trace := s.trace + [Found(e, delegator, seal)]), Done)
  }

  function AnchorPass(w: World, s: State, walk: seq<Event>): (State, Outcome)
    decreases |walk|
  {
    if walk == [] then (s, Done)
    else
      var (t, o) := AnchorEntry(w, s, walk[0]);
      if o != Done then (t, o) else AnchorPass(w, t, walk[1..])
  }

  // Some of the entries of a store, each once.
  ghost predicate Among(walk: seq<Event>, store: map<Key, Event>) {
    && (forall e | e in walk :: e.Key() in store && store[e.Key()] == e)
    && forall i, j | 0 <= i < j < |walk| :: walk[i] != walk[j]
  }

  ghost predicate Covered(walk: seq<Event>, store: map<Key, Event>) {
    forall k | k in store :: store[k] in walk
  }

  // The walk of getItemIter over a store: every entry once, in some order.
  ghost predicate Walks(walk: seq<Event>, store: map<Key, Event>) {
    Among(walk, store) && Covered(walk, store)
  }

  // One call of processEscrows; a walk that raises may stop short.
  ghost predicate Processed(w: World, s: State, t: State, o: Outcome, walk: seq<Event>, walk': seq<Event>) {
    var (m, p) := WitnessPass(w, s, walk);
    && Among(walk, s.dpwe)
    && if p != Done then t == m && o == p
       else Covered(walk, s.dpwe) && Walks(walk', m.dune) && (t, o) == AnchorPass(w, m, walk')
  }

  // ---------------------------------------------------------------------
  // What every run keeps
  // ---------------------------------------------------------------------

  // How far an event came: 1 asked for, 2 then sent, 3 then its anchor found.
  ghost function Stage(trace: seq<Deed>, e: Event): nat {
    if |trace| == 0 then 0
    else
      var p, d := Stage(trace[..|trace| - 1], e), trace[|trace| - 1];
      if d.event != e then p
      else match d
        case Asked(_) => if p == 0 then 1 else p
        case Sent(_, _, _, _, _) => if p == 1 then 2 else p
        case Found(_, _, _) => if p == 2 then 3 else p
  }

  ghost function Asks(trace: seq<Deed>, e: Event): nat {
    if |trace| == 0 then 0
    else Asks(trace[..|trace| - 1], e) + (if trace[|trace| - 1] == Asked(e) then 1 else 0)
  }

  ghost function Sends(trace: seq<Deed>, e: Event): nat {
    if |trace| == 0 then 0
    else Sends(trace[..|trace| - 1], e) + (if trace[|trace| - 1].Sent? && trace[|trace| - 1].event == e then 1 else 0)
  }

  // A send had all receipts and, with witnesses, the cue; a seal found names just the event.
  ghost predicate Sound(w: World, d: Deed) {
    match d
    case Asked(_) => true
    case Sent(e, _, dest, receipts, wits) =>
      && receipts == wits <= w.Receipts(e.Key()) && (wits > 0 ==> (e.pre, e.sn) in w.cues)
      && e.pre in w.habs && dest == w.habs[e.pre].delpre
    case Found(e, delegator, seal) =>
      && seal == Seal(e.pre, e.sn, Said(e)) && (delegator, seal) in w.anchors
      && e.pre in w.habs && w.habs[e.pre].delpre == Some(delegator)
  }

  // The delegator of an escrowed event is known.
  ghost predicate Known(w: World, e: Event) {
    e.pre in w.habs && w.habs[e.pre].delpre.Some? && w.habs[e.pre].delpre.value in w.kevers
  }

  ghost predicate Kept(s: State, e: Event) {
    e.Key() in s.dpwe || e.Key() in s.dune || (e.pre, e.sn) in s.cdel
  }

  ghost predicate Inv(w: World, s: State) {
    && (forall k | k in s.dpwe :: s.dpwe[k].Key() == k && Known(w, s.dpwe[k]) && Stage(s.trace, s.dpwe[k]) >= 1)
    && (forall k | k in s.dune :: s.dune[k].Key() == k && Known(w, s.dune[k]) && Stage(s.trace, s.dune[k]) >= 2)
    && (forall k | k in s.cdel ::
          s.cdel[k].event.pre == k.0 && s.cdel[k].event.sn == k.1 && Stage(s.trace, s.cdel[k].event) == 3)
    && (forall d | d in s.trace :: Sound(w, d))
    && (forall e | Asked(e) in s.trace :: Kept(s, e))
    && (forall e {:trigger Sends(s.trace, e)} {:trigger Asks(s.trace, e)} ::
          Sends(s.trace, e) + (if e.Key() in s.dpwe then 1 else 0) <= Asks(s.trace, e))
  }

  // What one more deed adds.
  lemma DeedAdded(trace: seq<Deed>, d: Deed)
    ensures forall e
      {:trigger Asks(trace + [d], e)} {:trigger Sends(trace + [d], e)} {:trigger Stage(trace + [d], e)} ::
      && Asks(trace + [d], e) == Asks(trace, e) + (if d == Asked(e) then 1 else 0)
      && Sends(trace + [d], e) == Sends(trace, e) + (if d.Sent? && d.event == e then 1 else 0)
      && Stage(trace + [d], e) >= Stage(trace, e) && (Stage(trace, e) == 3 ==> Stage(trace + [d], e) == 3)
      && (d == Asked(e) ==> Stage(trace + [d], e) >= 1)
      && (d.Sent? && d.event == e && Stage(trace, e) >= 1 ==> Stage(trace + [d], e) >= 2)
      && (d.Found? && d.event == e && Stage(trace, e) >= 2 ==> Stage(trace + [d], e) == 3)
  {
    forall e {:trigger Asks(trace + [d], e)}
      ensures Asks(trace + [d], e) == Asks(trace, e) + (if d == Asked(e) then 1 else 0)
      && Sends(trace + [d], e) == Sends(trace, e) + (if d.Sent? && d.event == e then 1 else 0)
      && Stage(trace + [d], e) >= Stage(trace, e) && (Stage(trace, e) == 3 ==> Stage(trace + [d], e) == 3)
      && (d == Asked(e) ==> Stage(trace + [d], e) >= 1)
      && (d.Sent? && d.event == e && Stage(trace, e) >= 1 ==> Stage(trace + [d], e) >= 2)
      && (d.Found? && d.event == e && Stage(trace, e) >= 2 ==> Stage(trace + [d], e) == 3)
    {
      StageBound(trace, e);
      var all := trace + [d];
      assert all[..|all| - 1] == trace && all[|all| - 1] == d;
    }
  }

  lemma {:induction false} StageBound(trace: seq<Deed>, e: Event)
    ensures Stage(trace, e) <= 3
  {
    if |trace| > 0 { StageBound(trace[..|trace| - 1], e); }
  }

  // A new event in dpwe, and whatever proxy and messages.
  lemma AskedKeeps(w: World, s: State, t: State, e: Event)
    requires Inv(w, s) && Known(w, e)
    requires t == s.(proxy := t.proxy, msgs := t.msgs, dpwe := s.dpwe[e.Key() := e], trace := s.trace + [Asked(e)])
    ensures Inv(w, t)
  {
    hide Stage, Asks, Sends, Known;
    DeedAdded(s.trace, Asked(e));
  }

  lemma ProxyKeeps(w: World, s: State, t: State)
    requires Inv(w, s) && t == s.(proxy := t.proxy)
    ensures Inv(w, t)
  {
    hide Stage, Asks, Sends, Known, Sound;
  }

  lemma DelegationKeeps(w: World, s: State, pre: Pre, sn: Option<nat>, proxy: Option<Pre>)
    requires Inv(w, s) && OwnEvents(w)
    ensures Inv(w, Delegate(w, s, pre, sn, proxy).0)
  {
    hide Inv;
    var (t, o) := Delegate(w, s, pre, sn, proxy);
    if o == Done {
      AskedKeeps(w, s, t, t.trace[|s.trace|].event);
    } else {
      ProxyKeeps(w, s, t);
    }
  }

  // An identifier's own events carry its prefix.
  ghost predicate OwnEvents(w: World) {
    forall p, n | p in w.habs && n in w.habs[p].own :: w.habs[p].own[n].pre == p && w.habs[p].own[n].sn == n
  }

  lemma SendEntryKeeps(w: World, s: State, e: Event)
    requires Inv(w, s) && e.Key() in s.dpwe && s.dpwe[e.Key()] == e
    ensures Inv(w, SendEntry(w, s, e).0)
  {
    hide Stage, Asks, Sends;
    var (t, o) := SendEntry(w, s, e);
    if t != s {
      DeedAdded(s.trace, t.trace[|s.trace|]);
    }
  }

  lemma AnchorEntryKeeps(w: World, s: State, e: Event)
    requires Inv(w, s) && e.Key() in s.dune && s.dune[e.Key()] == e
    ensures Inv(w, AnchorEntry(w, s, e).0)
  {
    hide Stage, Asks, Sends;
    var (t, o) := AnchorEntry(w, s, e);
    if t != s {
      DeedAdded(s.trace, t.trace[|s.trace|]);
    }
  }

  // ---------------------------------------------------------------------
  // The passes
  // ---------------------------------------------------------------------

  lemma AmongRest(walk: seq<Event>, store: map<Key, Event>, store': map<Key, Event>)
    requires Among(walk, store) && walk != []
    requires forall k | k in store && k != walk[0].Key() :: k in store' && store'[k] == store[k]
    ensures Among(walk[1..], store')
  {
    forall e | e in walk[1..]
      ensures e.Key() in store' && store'[e.Key()] == e
    {
      var i :| 0 <= i < |walk[1..]| && walk[1..][i] == e;
      assert walk[i + 1] == e && walk[0] != walk[i + 1];
    }
  }

  lemma {:induction false} WitnessPassKeeps(w: World, s: State, walk: seq<Event>)
    requires Inv(w, s) && Among(walk, s.dpwe)
    ensures Inv(w, WitnessPass(w, s, walk).0)
    decreases |walk|
  {
    hide Inv;
    if walk != [] {
      SendEntryKeeps(w, s, walk[0]);
      var (t, o) := SendEntry(w, s, walk[0]);
      if o == Done {
        AmongRest(walk, s.dpwe, t.dpwe);
        WitnessPassKeeps(w, t, walk[1..]);
      }
    }
  }

  lemma {:induction false} AnchorPassKeeps(w: World, s: State, walk: seq<Event>)
    requires Inv(w, s) && Among(walk, s.dune)
    ensures Inv(w, AnchorPass(w, s, walk).0)
    decreases |walk|
  {
    hide Inv;
    if walk != [] {
      AnchorEntryKeeps(w, s, walk[0]);
      var (t, o) := AnchorEntry(w, s, walk[0]);
      if o == Done {
        AmongRest(walk, s.dune, t.dune);
        AnchorPassKeeps(w, t, walk[1..]);
      }
    }
  }

  // As many receipts as witnesses, and the receiptor has cued it if there are any.
  ghost predicate FullyReceipted(w: World, e: Event) {
    && e.pre in w.habs && w.Receipts(e.Key()) == w.habs[e.pre].wits
    && (w.habs[e.pre].wits == 0 || (e.pre, e.sn) in w.cues)
  }

  // Nobody can send for an identifier that is no group and has no event but its first, unless there is a proxy.
  ghost predicate Voiceless(w: World, proxy: Option<Pre>, e: Event) {
    e.pre in w.habs && w.habs[e.pre].mhab == None && w.habs[e.pre].sn == 0 && proxy == None
  }

  // Whether an entry is ready, and then has nobody to send it.
  ghost predicate Stuck(w: World, proxy: Option<Pre>, e: Event) {
    FullyReceipted(w, e) && Voiceless(w, proxy, e)
  }

  /** Who sends for an identifier: the member of a group, with or without a proxy; else the proxy; else itself. */
  ghost predicate SendsFor(w: World, proxy: Option<Pre>, pre: Pre, sender: Pre) {
    && pre in w.habs
    && (w.habs[pre].mhab != None ==> w.habs[pre].mhab == Some(sender))
    && (w.habs[pre].mhab == None && proxy != None ==> proxy == Some(sender))
    && (w.habs[pre].mhab == None && proxy == None ==> sender == pre && w.habs[pre].sn > 0)
  }

  /**
   The witness pass raises if and only if some entry has all its receipts and nobody to send it,
   in whatever order the entries come.
   */
  lemma {:induction false} WitnessPassRaises(w: World, s: State, walk: seq<Event>)
    requires forall e | e in walk :: e.pre in w.habs
    ensures WitnessPass(w, s, walk).1 == if exists e :: e in walk && Stuck(w, s.proxy, e) then NoProxy else Done
    decreases |walk|
  {
    if walk != [] {
      assert walk == [walk[0]] + walk[1..] && walk[0] in walk;
      var (t, o) := SendEntry(w, s, walk[0]);
      if o == Done { WitnessPassRaises(w, t, walk[1..]); }
    }
  }

  /** When it does not raise, just the entries with all their receipts move from dpwe to dune. */
  lemma {:induction false} WitnessPassMoves(w: World, s: State, walk: seq<Event>)
    requires Among(walk, s.dpwe) && (forall e | e in walk :: e.pre in w.habs)
      && (forall k | k in s.dpwe :: s.dpwe[k].Key() == k)
    requires WitnessPass(w, s, walk).1 == Done
    ensures var t := WitnessPass(w, s, walk).0;
      && (forall k :: k in t.dpwe <==> k in s.dpwe && !(s.dpwe[k] in walk && FullyReceipted(w, s.dpwe[k])))
      && (forall k :: k in t.dune <==>
            k in s.dune || (k in s.dpwe && s.dpwe[k] in walk && FullyReceipted(w, s.dpwe[k])))
      && t.cdel == s.cdel && t.proxy == s.proxy && t.msgs == s.msgs
    decreases |walk|
  {
    if walk != [] {
      var t := SendEntry(w, s, walk[0]).0;
      assert walk == [walk[0]] + walk[1..];
      AmongRest(walk, s.dpwe, t.dpwe);
      assert walk[0] !in walk[1..];
      WitnessPassMoves(w, t, walk[1..]);
    }
  }

  ghost predicate Anchored(w: World, e: Event) {
    && e.pre in w.habs && w.habs[e.pre].delpre.Some?
    && (w.habs[e.pre].delpre.value, Seal(e.pre, e.sn, Said(e))) in w.anchors
  }

  // One entry of the anchor pass.
  lemma AnchorEntryIs(w: World, s: State, e: Event)
    requires Known(w, e)
    ensures var (t, o) := AnchorEntry(w, s, e);
      && o == Done && t.dpwe == s.dpwe && t.proxy == s.proxy
      && (forall k | k in s.cdel :: k in t.cdel && t.cdel[k] == s.cdel[k])
      && if Anchored(w, e) then t.dune == s.dune - {e.Key()} && (e.pre, e.sn) in t.cdel else t == s
  {
  }

  /**
   The anchor pass never raises on known delegators; just the anchored entries leave dune, and all of
   those are complete.
   */
  lemma {:induction false} AnchorPassMoves(w: World, s: State, walk: seq<Event>)
    requires Among(walk, s.dune) && forall e | e in walk :: Known(w, e)
    requires forall k | k in s.dune :: s.dune[k].Key() == k
    ensures var (t, o) := AnchorPass(w, s, walk);
      && o == Done && t.dpwe == s.dpwe && t.proxy == s.proxy
      && (forall k :: k in t.dune <==> k in s.dune && !(s.dune[k] in walk && Anchored(w, s.dune[k])))
      && (forall e | e in walk && Anchored(w, e) :: (e.pre, e.sn) in t.cdel)
      && (forall k | k in s.cdel :: k in t.cdel && t.cdel[k] == s.cdel[k])
    decreases |walk|
  {
    if walk != [] {
      hide Known, Anchored, AnchorEntry;
      var t := AnchorEntry(w, s, walk[0]).0;
      assert walk == [walk[0]] + walk[1..] && walk[0] in walk;
      AnchorEntryIs(w, s, walk[0]);
      AmongRest(walk, s.dune, t.dune);
      assert walk[0] !in walk[1..];
      AnchorPassMoves(w, t, walk[1..]);
    }
  }

  // ---------------------------------------------------------------------
  // Progress
  // ---------------------------------------------------------------------

  ghost function Weight(s: State): nat {
    2 * |s.dpwe| + |s.dune|
  }

  lemma Removed<K, V>(m: map<K, V>, k: K)
    ensures |m - {k}| == |m| - (if k in m then 1 else 0)
  {
    if k in m {
      assert (m - {k}).Keys == m.Keys - {k};
    } else {
      assert m - {k} == m;
    }
  }

  lemma Added<K, V>(m: map<K, V>, k: K, v: V)
    ensures |m[k := v]| <= |m| + 1
  {
    assert m[k := v].Keys == m.Keys + {k};
  }

  lemma {:induction false} WitnessPassWeight(w: World, s: State, walk: seq<Event>)
    requires Among(walk, s.dpwe)
    ensures Weight(WitnessPass(w, s, walk).0) <= Weight(s)
    decreases |walk|
  {
    if walk != [] {
      var e := walk[0];
      var (t, o) := SendEntry(w, s, e);
      Removed(s.dpwe, e.Key());
      Added(s.dune, e.Key(), e);
      if o == Done {
        AmongRest(walk, s.dpwe, t.dpwe);
        WitnessPassWeight(w, t, walk[1..]);
      }
    }
  }

  lemma {:induction false} AnchorPassWeight(w: World, s: State, walk: seq<Event>)
    ensures Weight(AnchorPass(w, s, walk).0) <= Weight(s)
    decreases |walk|
  {
    if walk != [] {
      var (t, o) := AnchorEntry(w, s, walk[0]);
      Removed(s.dune, walk[0].Key());
      if o == Done { AnchorPassWeight(w, t, walk[1..]); }
    }
  }

  /** A call of processEscrows never adds work. */
  lemma NeverMoreWork(w: World, s: State, t: State, o: Outcome, walk: seq<Event>, walk': seq<Event>)
    requires Processed(w, s, t, o, walk, walk')
    ensures Weight(t) <= Weight(s)
  {
    WitnessPassWeight(w, s, walk);
    AnchorPassWeight(w, WitnessPass(w, s, walk).0, walk');
  }

  /**
   A call raises if and only if an entry has all its receipts and nobody to send it; otherwise what
   is left in dpwe lacks a receipt or the cue, and what is left in dune lacks its anchor.
   */
  lemma ProcessedExactly(w: World, s: State, t: State, o: Outcome, walk: seq<Event>, walk': seq<Event>)
    requires Inv(w, s) && Processed(w, s, t, o, walk, walk')
    ensures o == if exists k :: k in s.dpwe && Stuck(w, s.proxy, s.dpwe[k]) then NoProxy else Done
    ensures o == Done ==> forall k :: k in t.dpwe <==> k in s.dpwe && !FullyReceipted(w, s.dpwe[k])
    ensures o == Done ==> forall k :: k in t.dune <==>
      || (k in s.dune && !(k in s.dpwe && FullyReceipted(w, s.dpwe[k])) && !Anchored(w, s.dune[k]))
      || (k in s.dpwe && FullyReceipted(w, s.dpwe[k]) && !Anchored(w, s.dpwe[k]))
  {
    var (m, p) := WitnessPass(w, s, walk);
    forall e | e in walk ensures e.pre in w.habs { assert s.dpwe[e.Key()] == e; }
    WitnessPassRaises(w, s, walk);
    WitnessPassKeeps(w, s, walk);
    if p == Done {
      WitnessPassMoves(w, s, walk);
      AnchorPassMoves(w, m, walk');
      forall k | k in m.dune
        ensures m.dune[k].Key() == k && Known(w, m.dune[k])
      {
      }
    }
  }

  /** When every event waiting has its receipts, its cue, a sender and its anchor, one call empties both escrows. */
  lemma OneCallEmpties(w: World, s: State, t: State, o: Outcome, walk: seq<Event>, walk': seq<Event>)
    requires Inv(w, s) && Processed(w, s, t, o, walk, walk')
    requires forall k | k in s.dpwe ::
      FullyReceipted(w, s.dpwe[k]) && !Voiceless(w, s.proxy, s.dpwe[k]) && Anchored(w, s.dpwe[k])
    requires forall k | k in s.dune :: Anchored(w, s.dune[k])
    ensures o == Done && t.dpwe == map[] && t.dune == map[]
    ensures forall e | Asked(e) in s.trace :: (e.pre, e.sn) in t.cdel
  {
    ProcessedExactly(w, s, t, o, walk, walk');
    ProcessedKeeps(w, s, t, o, walk, walk');
    forall e | Asked(e) in s.trace
      ensures (e.pre, e.sn) in t.cdel
    {
      ProcessedTrace(w, s, t, o, walk, walk');
      assert Kept(t, e);
    }
  }

  lemma ProcessedKeeps(w: World, s: State, t: State, o: Outcome, walk: seq<Event>, walk': seq<Event>)
    requires Inv(w, s) && Processed(w, s, t, o, walk, walk')
    ensures Inv(w, t)
  {
    hide Inv;
    WitnessPassKeeps(w, s, walk);
    var (m, p) := WitnessPass(w, s, walk);
    if p == Done { AnchorPassKeeps(w, m, walk'); }
  }

  lemma {:induction false} WitnessPassTrace(w: World, s: State, walk: seq<Event>)
    ensures s.trace <= WitnessPass(w, s, walk).0.trace && WitnessPass(w, s, walk).0.cdel == s.cdel
    decreases |walk|
  {
    if walk != [] { WitnessPassTrace(w, SendEntry(w, s, walk[0]).0, walk[1..]); }
  }

  lemma {:induction false} AnchorPassTrace(w: World, s: State, walk: seq<Event>)
    ensures s.trace <= AnchorPass(w, s, walk).0.trace
    ensures forall k | k in s.cdel ::
      k in AnchorPass(w, s, walk).0.cdel && AnchorPass(w, s, walk).0.cdel[k] == s.cdel[k]
    decreases |walk|
  {
    if walk != [] { AnchorPassTrace(w, AnchorEntry(w, s, walk[0]).0, walk[1..]); }
  }

  // What was done stays done.
  lemma ProcessedTrace(w: World, s: State, t: State, o: Outcome, walk: seq<Event>, walk': seq<Event>)
    requires Processed(w, s, t, o, walk, walk')
    ensures s.trace <= t.trace && forall k | k in s.cdel :: k in t.cdel && t.cdel[k] == s.cdel[k]
  {
    WitnessPassTrace(w, s, walk);
    AnchorPassTrace(w, WitnessPass(w, s, walk).0, walk');
  }

  // ---------------------------------------------------------------------
  // Runs
  // ---------------------------------------------------------------------

  datatype Step =
    | Ask(pre: Pre, sn: Option<nat>, proxy: Option<Pre>)
    | Process(outcome: Outcome, walk: seq<Event>, walk': seq<Event>)
    | Others

  // Receipts, cues, anchors and identifiers are only added; a delegator is for ever.
  ghost predicate Grows(w: World, w': World) {
    && (forall p | p in w.habs :: p in w'.habs && w'.habs[p].delpre == w.habs[p].delpre)
    && w.kevers <= w'.kevers && w.anchors <= w'.anchors
    && (forall c | c in w.cues :: c in w'.cues)
    && (forall k :: w.Receipts(k) <= w'.Receipts(k))
  }

  ghost predicate Next(w: World, s: State, step: Step, w': World, s': State) {
    match step
    case Ask(pre, sn, proxy) => w' == w && s' == Delegate(w, s, pre, sn, proxy).0
    case Process(o, walk, walk') => w' == w && Processed(w, s, s', o, walk, walk')
    case Others => s' == s && Grows(w, w')
  }

  ghost predicate Initial(s: State) {
    s.dpwe == map[] && s.dune == map[] && s.cdel == map[] && s.trace == []
  }

  // Calls of delegation, passes and the deeds of others, in any order.
  ghost predicate Run(ws: seq<World>, ss: seq<State>, steps: seq<Step>) {
    && |ws| == |ss| == |steps| + 1 && Initial(ss[0])
    && (forall w | w in ws :: OwnEvents(w))
    && forall n | 0 <= n < |steps| :: Next(ws[n], ss[n], steps[n], ws[n + 1], ss[n + 1])
  }

  lemma OthersKeep(w: World, w': World, s: State)
    requires Inv(w, s) && Grows(w, w')
    ensures Inv(w', s)
  {
  }

  lemma {:induction false} RunKeeps(ws: seq<World>, ss: seq<State>, steps: seq<Step>, n: nat)
    requires Run(ws, ss, steps) && n < |ss|
    ensures Inv(ws[n], ss[n])
  {
    hide Inv, Processed, Grows;
    if n == 0 {
      InitialKeeps(ws[0], ss[0]);
    } else {
      RunKeeps(ws, ss, steps, n - 1);
      var w, s, t := ws[n - 1], ss[n - 1], ss[n];
      assert Next(w, s, steps[n - 1], ws[n], t);
      match steps[n - 1]
      case Ask(pre, sn, proxy) => DelegationKeeps(w, s, pre, sn, proxy);
      case Process(o, walk, walk') => ProcessedKeeps(w, s, t, o, walk, walk');
      case Others => OthersKeep(w, ws[n], s);
    }
  }

  lemma InitialKeeps(w: World, s: State)
    requires Initial(s)
    ensures Inv(w, s)
  {
  }

  lemma {:induction false} RecordsStay(ws: seq<World>, ss: seq<State>, steps: seq<Step>, n: nat, m: nat)
    requires Run(ws, ss, steps) && n <= m < |ss|
    ensures ss[n].trace <= ss[m].trace
    ensures forall k | k in ss[n].cdel :: k in ss[m].cdel && ss[m].cdel[k] == ss[n].cdel[k]
    decreases m
  {
    if n < m {
      RecordsStay(ws, ss, steps, n, m - 1);
      assert Next(ws[m - 1], ss[m - 1], steps[m - 1], ws[m], ss[m]);
      if steps[m - 1].Process? {
        ProcessedTrace(ws[m - 1], ss[m - 1], ss[m], steps[m - 1].outcome, steps[m - 1].walk, steps[m - 1].walk');
      }
    }
  }

  lemma {:induction false} StageTwo(trace: seq<Deed>, e: Event) returns (a: nat, b: nat)
    requires Stage(trace, e) >= 2
    ensures a < b < |trace| && trace[a] == Asked(e) && trace[b].Sent? && trace[b].event == e
  {
    var m := |trace| - 1;
    if Stage(trace[..m], e) >= 2 {
      a, b := StageTwo(trace[..m], e);
    } else {
      a := StageOne(trace[..m], e);
      b := m;
    }
  }

  lemma {:induction false} StageOne(trace: seq<Deed>, e: Event) returns (a: nat)
    requires Stage(trace, e) >= 1
    ensures a < |trace| && trace[a] == Asked(e)
  {
    var m := |trace| - 1;
    if Stage(trace[..m], e) >= 1 { a := StageOne(trace[..m], e); } else { a := m; }
  }

  lemma {:induction false} StageThree(trace: seq<Deed>, e: Event) returns (a: nat, b: nat, c: nat)
    requires Stage(trace, e) == 3
    ensures a < b < c < |trace| && trace[a] == Asked(e)
    ensures trace[b].Sent? && trace[b].event == e && trace[c].Found? && trace[c].event == e
  {
    var m := |trace| - 1;
    if Stage(trace[..m], e) == 3 {
      a, b, c := StageThree(trace[..m], e);
    } else {
      a, b := StageTwo(trace[..m], e);
      c := m;
    }
  }

  // A deed as a pass with this proxy does it in the world w: the send in full receipt, by who sends for
  // the identifier, to the delegator, the seal as it is anchored.
  ghost predicate ByPass(w: World, proxy: Option<Pre>, d: Deed) {
    match d
    case Asked(_) => false
    case Sent(e, sender, dest, receipts, wits) =>
      && SendsFor(w, proxy, e.pre, sender) && receipts == w.Receipts(e.Key()) == wits == w.habs[e.pre].wits
      && (wits > 0 ==> (e.pre, e.sn) in w.cues) && dest == w.habs[e.pre].delpre
    case Found(e, delegator, seal) =>
      && e.pre in w.habs && w.habs[e.pre].delpre == Some(delegator)
      && seal == Seal(e.pre, e.sn, Said(e)) && (delegator, seal) in w.anchors
  }

  ghost predicate AddedByPass(w: World, proxy: Option<Pre>, before: seq<Deed>, after: seq<Deed>) {
    before <= after && forall x | |before| <= x < |after| :: ByPass(w, proxy, after[x])
  }

  lemma {:induction false} WitnessPassDeeds(w: World, s: State, walk: seq<Event>)
    ensures AddedByPass(w, s.proxy, s.trace, WitnessPass(w, s, walk).0.trace)
    ensures WitnessPass(w, s, walk).0.proxy == s.proxy
    decreases |walk|
  {
    if walk != [] { WitnessPassDeeds(w, SendEntry(w, s, walk[0]).0, walk[1..]); }
  }

  lemma {:induction false} AnchorPassDeeds(w: World, s: State, walk: seq<Event>)
    ensures AddedByPass(w, s.proxy, s.trace, AnchorPass(w, s, walk).0.trace)
    decreases |walk|
  {
    if walk != [] { AnchorPassDeeds(w, AnchorEntry(w, s, walk[0]).0, walk[1..]); }
  }

  // A call of delegation as it succeeds: the event of the number given, or else the latest, is put into
  // dpwe, and goes to the receiptor.
  ghost predicate ByCall(w: World, s: State, t: State, pre: Pre, sn: Option<nat>, e: Event) {
    && pre in w.habs
    && (var n := if sn == None then w.habs[pre].sn else sn.value; n in w.habs[pre].own && w.habs[pre].own[n] == e)
    && e.Key() in t.dpwe && t.dpwe[e.Key()] == e && t.msgs == s.msgs + [(pre, e.sn)]
  }

  // The step that did the deed x, in the world of that step and with its proxy.
  ghost predicate DoneAt(ws: seq<World>, ss: seq<State>, steps: seq<Step>, m: nat, x: nat, d: Deed) {
    && m < |steps| && |ws| == |ss| == |steps| + 1
    && |ss[m].trace| <= x < |ss[m + 1].trace| && ss[m + 1].trace[x] == d
    && if d.Asked? then steps[m].Ask? && ByCall(ws[m], ss[m], ss[m + 1], steps[m].pre, steps[m].sn, d.event)
       else steps[m].Process? && ByPass(ws[m], ss[m].proxy, d)
  }

  lemma {:induction false} DeedStep(ws: seq<World>, ss: seq<State>, steps: seq<Step>, n: nat, x: nat) returns (m: nat)
    requires Run(ws, ss, steps) && n < |ss| && x < |ss[n].trace|
    ensures m < n && DoneAt(ws, ss, steps, m, x, ss[n].trace[x])
    decreases n
  {
    RecordsStay(ws, ss, steps, n - 1, n);
    if x < |ss[n - 1].trace| {
      m := DeedStep(ws, ss, steps, n - 1, x);
    } else {
      m := n - 1;
      var w, s := ws[m], ss[m];
      assert Next(w, s, steps[m], ws[n], ss[n]);
      match steps[m]
      case Ask(_, _, _) =>
      case Process(o, walk, walk') =>
        WitnessPassDeeds(w, s, walk);
        AnchorPassDeeds(w, WitnessPass(w, s, walk).0, walk');
      case Others =>
    }
  }

  lemma DeedsInOrder(ws: seq<World>, ss: seq<State>, steps: seq<Step>, m: nat, l: nat, x: nat, y: nat, d: Deed, e: Deed)
    requires Run(ws, ss, steps) && DoneAt(ws, ss, steps, m, x, d) && DoneAt(ws, ss, steps, l, y, e) && x < y
    ensures m <= l
  {
    if l < m { RecordsStay(ws, ss, steps, l + 1, m); }
  }

  /**
   No stage is skipped. In every run, a record for (pre, sn) was preceded by three deeds, each true of
   the world as it was then: at step i the call of delegation for its event; at a later step j a pass
   sent the event to its delegator, in the name of who sends for its identifier, with all receipts in
   and cued by the receiptor if there are witnesses; and at step l, in that pass or a later one, the
   same delegator had anchored a seal with just its pre, sn and digest.
   */
  lemma NoStageSkipped(ws: seq<World>, ss: seq<State>, steps: seq<Step>, n: nat, pre: Pre, sn: nat)
    returns (a: nat, b: nat, c: nat, i: nat, j: nat, l: nat)
    requires Run(ws, ss, steps) && n < |ss| && (pre, sn) in ss[n].cdel
    ensures var (trace, said) := (ss[n].trace, ss[n].cdel[(pre, sn)]);
      && said.event.pre == pre && said.event.sn == sn && a < b < c < |trace| && i < j <= l < n
      && trace[a] == Asked(said.event) && DoneAt(ws, ss, steps, i, a, trace[a])
      && trace[b].Sent? && trace[b].event == said.event && DoneAt(ws, ss, steps, j, b, trace[b])
      && trace[c].Found? && trace[c].event == said.event && DoneAt(ws, ss, steps, l, c, trace[c])
    ensures var (trace, said) := (ss[n].trace, ss[n].cdel[(pre, sn)]);
      && pre in ws[j].habs && ws[j].Receipts(said.event.Key()) == ws[j].habs[pre].wits
      && (ws[j].habs[pre].wits > 0 ==> (pre, sn) in ws[j].cues)
      && (trace[c].delegator, Seal(pre, sn, said)) in ws[l].anchors
      && trace[b].dest == ws[j].habs[pre].delpre == Some(trace[c].delegator)
      && SendsFor(ws[j], ss[j].proxy, pre, trace[b].sender)
      && pre in ws[n].habs && ws[n].habs[pre].delpre == Some(trace[c].delegator)
  {
    hide Inv, Stage, Next;
    RunKeeps(ws, ss, steps, n);
    RecordIsThree(ws[n], ss[n], pre, sn);
    var trace := ss[n].trace;
    a, b, c := StageThree(trace, ss[n].cdel[(pre, sn)].event);
    i := DeedStep(ws, ss, steps, n, a);
    j := DeedStep(ws, ss, steps, n, b);
    l := DeedStep(ws, ss, steps, n, c);
    DeedsInOrder(ws, ss, steps, i, j, a, b, trace[a], trace[b]);
    DeedsInOrder(ws, ss, steps, j, l, b, c, trace[b], trace[c]);
    DelegatorStays(ws, ss, steps, j, l, pre);
    DelegatorStays(ws, ss, steps, l, n, pre);
  }

  lemma RecordIsThree(w: World, s: State, pre: Pre, sn: nat)
    requires Inv(w, s) && (pre, sn) in s.cdel
    ensures var e := s.cdel[(pre, sn)].event; e.pre == pre && e.sn == sn && Stage(s.trace, e) == 3
  {
  }

  lemma {:induction false} DelegatorStays(ws: seq<World>, ss: seq<State>, steps: seq<Step>, n: nat, m: nat, pre: Pre)
    requires Run(ws, ss, steps) && n <= m < |ws| && pre in ws[n].habs
    ensures pre in ws[m].habs && ws[m].habs[pre].delpre == ws[n].habs[pre].delpre
    decreases m
  {
    if n < m {
      DelegatorStays(ws, ss, steps, n, m - 1, pre);
      assert Next(ws[m - 1], ss[m - 1], steps[m - 1], ws[m], ss[m]);
    }
  }

  /** From then on complete is true for that digest, and for none given, and raises for any other. */
  lemma CompleteForEver(ws: seq<World>, ss: seq<State>, steps: seq<Step>, n: nat, m: nat, pre: Pre, sn: nat,
                        said: Option<Said>)
    requires Run(ws, ss, steps) && n <= m < |ss|
    ensures (pre, sn) in ss[n].cdel ==>
      Completed(ss[m], pre, sn, said) == if said == None || said.value == ss[n].cdel[(pre, sn)] then Yes else Invalid
    ensures Completed(ss[n], pre, sn, said) != No ==> Completed(ss[m], pre, sn, said) == Completed(ss[n], pre, sn, said)
  {
    RecordsStay(ws, ss, steps, n, m);
  }

  /**
   Two events at one number, both anchored: the first that the pass meets keeps the record, and
   complete raises for the other.
   */
  lemma SecondEventShutOut()
    ensures var (e, f) := (Event(1, 0, 0), Event(1, 0, 7));
      var w := World(map[1 := Hab(Some(9), 0, 0, None, map[0 := f])], {9}, map[], [],
                     {(9, Seal(1, 0, Said(e))), (9, Seal(1, 0, Said(f)))});
      var s := State(map[], map[e.Key() := e, f.Key() := f], map[], None, [], []);
      var t := AnchorPass(w, s, [e, f]).0;
      && Walks([e, f], s.dune) && t.dune == map[] && t.cdel == map[(1, 0) := Said(e)]
      && Completed(t, 1, 0, Some(Said(e))) == Yes && Completed(t, 1, 0, Some(Said(f))) == Invalid
  {
    var e, f := Event(1, 0, 0), Event(1, 0, 7);
    var w := World(map[1 := Hab(Some(9), 0, 0, None, map[0 := f])], {9}, map[], [],
                   {(9, Seal(1, 0, Said(e))), (9, Seal(1, 0, Said(f)))});
    var s := State(map[], map[e.Key() := e, f.Key() := f], map[], None, [], []);
    assert e.Key() == (1, Said(e)) && f.Key() == (1, Said(f)) && e.Key() != f.Key();
    var m := AnchorEntry(w, s, e).0;
    var t := AnchorEntry(w, m, f).0;
    assert m.dune == map[f.Key() := f] && t.dune == map[] && t.cdel == m.cdel == map[(1, 0) := Said(e)];
    assert [e, f][1..] == [f] && [f][1..] == [];
    assert AnchorPass(w, s, [e, f]).0 == AnchorPass(w, m, [f]).0 == AnchorPass(w, t, []).0 == t;
  }

  /**
   Nothing is lost, also when a pass raises: an event once handed to delegation waits, or its (pre,
   sn) has a record.
   */
  lemma NothingLost(ws: seq<World>, ss: seq<State>, steps: seq<Step>, n: nat, m: nat, e: Event)
    requires Run(ws, ss, steps) && n <= m < |ss| && Asked(e) in ss[n].trace
    ensures e.Key() in ss[m].dpwe || e.Key() in ss[m].dune || (e.pre, e.sn) in ss[m].cdel
  {
    RunKeeps(ws, ss, steps, m);
    RecordsStay(ws, ss, steps, n, m);
    assert Kept(ss[m], e);
  }

  /** Every send, and every wait in dpwe, was asked for. */
  lemma SendsAccounted(ws: seq<World>, ss: seq<State>, steps: seq<Step>, n: nat, e: Event)
    requires Run(ws, ss, steps) && n < |ss|
    ensures Sends(ss[n].trace, e) + (if e.Key() in ss[n].dpwe then 1 else 0) <= Asks(ss[n].trace, e)
  {
    RunKeeps(ws, ss, steps, n);
  }

  // Why a call of delegation for a local identifier raises: its delegator is not known, or it has no such event.
  predicate Lacking(w: World, pre: Pre, sn: Option<nat>)
    requires pre in w.habs
  {
    var hab := w.habs[pre];
    || hab.delpre == None || hab.delpre.value !in w.kevers
    || (if sn.Some? then sn.value else hab.sn) !in hab.own
  }

  /**
   delegation takes the proxy before it looks for the delegator and the event, so a call that raises
   for want of either still changes who sends.
   */
  lemma FailedCallChangesProxy(w: World, s: State, pre: Pre, sn: Option<nat>, proxy: Option<Pre>)
    ensures var (t, o) := Delegate(w, s, pre, sn, proxy);
      && (o != Done <==> pre !in w.habs || Lacking(w, pre, sn))
      && (o != Done ==> t == s.(proxy := t.proxy))
      && (o != Done && t != s <==> pre in w.habs && Lacking(w, pre, sn) && proxy.Some? && proxy != s.proxy)
  {
  }

  /**
   A call for identifier 1 that raises, because nobody knows its delegator, decides who sends the
   event of identifier 2: without it the pass raises, after it the pass sends for the proxy 5.
   */
  lemma FailedCallDecidesSender()
    ensures var e := Event(2, 0, 0);
      var w := World(map[1 := Hab(Some(8), 0, 0, None, map[]), 2 := Hab(Some(9), 0, 0, None, map[0 := e])],
                     {9}, map[], [], {});
      var s := State(map[e.Key() := e], map[], map[], None, [], [Asked(e)]);
      var (t, o) := Delegate(w, s, 1, None, Some(5));
      && o == NoDelegator
      && WitnessPass(w, s, [e]) == (s, NoProxy)
      && WitnessPass(w, t, [e]).1 == Done
      && WitnessPass(w, t, [e]).0.trace == [Asked(e), Sent(e, 5, Some(9), 0, 0)]
  {
    var e := Event(2, 0, 0);
    var w := World(map[1 := Hab(Some(8), 0, 0, None, map[]), 2 := Hab(Some(9), 0, 0, None, map[0 := e])],
                   {9}, map[], [], {});
    var s := State(map[e.Key() := e], map[], map[], None, [], [Asked(e)]);
    var t := Delegate(w, s, 1, None, Some(5)).0;
    assert [e][1..] == [];
    assert WitnessPass(w, t, [e]) == WitnessPass(w, SendEntry(w, t, e).0, [e][1..]);
  }

  /**
   An entry that nobody can send holds up one that is ready: met first it leaves both in dpwe, and
   met last it still makes the call raise, so that the anchor pass does not run.
   */
  lemma StuckEntryAborts()
    ensures var (e, f) := (Event(1, 1, 0), Event(2, 0, 0));
      var w := World(map[1 := Hab(Some(9), 1, 0, None, map[1 := e]), 2 := Hab(Some(9), 0, 0, None, map[0 := f])],
                     {9}, map[], [], {});
      var s := State(map[e.Key() := e, f.Key() := f], map[], map[], None, [], []);
      && Walks([e, f], s.dpwe) && Walks([f, e], s.dpwe)
      && Stuck(w, None, f) && !Stuck(w, None, e) && FullyReceipted(w, e)
      && WitnessPass(w, s, [f, e]) == (s, NoProxy)
      && WitnessPass(w, s, [e, f]).1 == NoProxy
      && WitnessPass(w, s, [e, f]).0.dpwe == map[f.Key() := f] && WitnessPass(w, s, [e, f]).0.dune == map[e.Key() := e]
  {
    var e, f := Event(1, 1, 0), Event(2, 0, 0);
    var w := World(map[1 := Hab(Some(9), 1, 0, None, map[1 := e]), 2 := Hab(Some(9), 0, 0, None, map[0 := f])],
                   {9}, map[], [], {});
    var s := State(map[e.Key() := e, f.Key() := f], map[], map[], None, [], []);
    assert e.Key() == (1, Said(e)) && f.Key() == (2, Said(f));
    assert SendEntry(w, s, f) == (s, NoProxy);
    var t := SendEntry(w, s, e).0;
    assert t.dpwe == map[f.Key() := f] && t.dune == map[e.Key() := e];
    assert [e, f][1..] == [f];
    assert WitnessPass(w, s, [e, f]) == WitnessPass(w, t, [f]) == (t, NoProxy);
  }

  // ---------------------------------------------------------------------
  // The class
  // ---------------------------------------------------------------------

  lemma {:induction false} WitnessPassMore(w: World, s: State, walk: seq<Event>, e: Event)
    ensures WitnessPass(w, s, walk + [e]) ==
      if WitnessPass(w, s, walk).1 == Done then SendEntry(w, WitnessPass(w, s, walk).0, e) else WitnessPass(w, s, walk)
    decreases |walk|
  {
    var all := walk + [e];
    if walk == [] {
      assert all[1..] == [] && all[0] == e;
    } else {
      WitnessPassMore(w, SendEntry(w, s, walk[0]).0, walk[1..], e);
      assert all[1..] == walk[1..] + [e] && all[0] == walk[0];
    }
  }

  lemma {:induction false} AnchorPassMore(w: World, s: State, walk: seq<Event>, e: Event)
    ensures AnchorPass(w, s, walk + [e]) ==
      if AnchorPass(w, s, walk).1 == Done then AnchorEntry(w, AnchorPass(w, s, walk).0, e) else AnchorPass(w, s, walk)
    decreases |walk|
  {
    var all := walk + [e];
    if walk == [] {
      assert all[1..] == [] && all[0] == e;
    } else {
      AnchorPassMore(w, AnchorEntry(w, s, walk[0]).0, walk[1..], e);
      assert all[1..] == walk[1..] + [e] && all[0] == walk[0];
    }
  }

  ghost predicate Keyed(store: map<Key, Event>) {
    forall k | k in store :: store[k].Key() == k
  }

  class Anchorer {
    var dpwe: map<Key, Event>
    var dune: map<Key, Event>
    var cdel: map<(Pre, nat), Said>
    var proxy: Option<Pre>
    var msgs: seq<(Pre, nat)>
    ghost var trace: seq<Deed>

    ghost function Now(): State
      reads this
    {
      State(dpwe, dune, cdel, proxy, msgs, trace)
    }

    constructor (proxy: Option<Pre>)
      ensures Initial(Now()) && this.proxy == proxy
    {
      this.proxy := proxy;
      dpwe, dune, cdel, msgs, trace := map[], map[], map[], [], [];
    }

    method Delegation(w: World, pre: Pre, sn: Option<nat>, proxy: Option<Pre>) returns (o: Outcome)
      modifies this
      ensures (Now(), o) == Delegate(w, old(Now()), pre, sn, proxy)
    {
      if pre !in w.habs {
        return NotLocal;
      }
      if proxy.Some? { this.proxy := proxy; }
      var hab := w.habs[pre];
      if hab.delpre == None || hab.delpre.value !in w.kevers {
        return NoDelegator;
      }
      var n := if sn.Some? then sn.value else hab.sn;
      if n !in hab.own {
        return NoEvent;
      }
      var e := hab.own[n];
      msgs := msgs + [(pre, e.sn)];
      dpwe := dpwe[e.Key() := e];
      trace := trace + [Asked(e)];
      o := Done;
    }

    method Complete(pre: Pre, sn: nat, said: Option<Said>) returns (r: Answer)
      ensures r == Completed(Now(), pre, sn, said)
    {
      if (pre, sn) !in cdel {
        return No;
      }
      if said.Some? && cdel[(pre, sn)] != said.value {
        return Invalid;
      }
      r := Yes;
    }

    // Whether the receiptor has cued the event.
    method Witnessed(w: World, e: Event) returns (witnessed: bool)
      ensures witnessed == ((e.pre, e.sn) in w.cues)
    {
      witnessed := false;
      var n := 0;
      while n < |w.cues|
        invariant n <= |w.cues| && witnessed == ((e.pre, e.sn) in w.cues[..n])
      {
        assert w.cues[..n + 1] == w.cues[..n] + [w.cues[n]];
        if w.cues[n] == (e.pre, e.sn) { witnessed := true; }
        n := n + 1;
      }
      assert w.cues[..n] == w.cues;
    }

    // The body of the loop over dpwe.
    method Send(w: World, e: Event) returns (o: Outcome)
      modifies this
      ensures (Now(), o) == SendEntry(w, old(Now()), e)
    {
      if e.pre !in w.habs {
        return KeyError;
      }
      var hab := w.habs[e.pre];
      if w.Receipts(e.Key()) == hab.wits {
        if hab.wits > 0 {
          var witnessed := Witnessed(w, e);
          if !witnessed {
            return Done;
          }
        }
        var phab;
        if hab.mhab.Some? {
          phab := hab.mhab.value;
        } else if proxy.Some? {
          phab := proxy.value;
        } else if hab.sn > 0 {
          phab := e.pre;
        } else {
          return NoProxy;
        }
        trace := trace + [Sent(e, phab, hab.delpre, w.Receipts(e.Key()), hab.wits)];
        dpwe := dpwe - {e.Key()};
        dune := dune[e.Key() := e];
      }
      o := Done;
    }

    method ProcessPartialWitnessEscrow(w: World) returns (o: Outcome, ghost walk: seq<Event>)
      requires Keyed(dpwe)
      modifies this
      ensures (Now(), o) == WitnessPass(w, old(Now()), walk)
      ensures Among(walk, old(dpwe)) && (o == Done ==> Covered(walk, old(dpwe)))
    {
      var snapshot, rest := dpwe, dpwe.Keys;
      walk, o := [], Done;
      while rest != {} && o == Done
        invariant rest <= snapshot.Keys && snapshot == old(dpwe)
        invariant (Now(), o) == WitnessPass(w, old(Now()), walk)
        invariant Among(walk, snapshot) && forall k | k in snapshot ::
          (k in rest ==> snapshot[k] !in walk) && (k !in rest ==> snapshot[k] in walk)
        decreases |rest|, o == Done
      {
        var k :| k in rest;
        rest := rest - {k};
        WitnessPassMore(w, old(Now()), walk, snapshot[k]);
        walk := walk + [snapshot[k]];
        o := Send(w, snapshot[k]);
      }
    }

    // The body of the loop over dune.
    method Approve(w: World, e: Event) returns (o: Outcome)
      modifies this
      ensures (Now(), o) == AnchorEntry(w, old(Now()), e)
    {
      if e.pre !in w.habs || w.habs[e.pre].delpre == None || w.habs[e.pre].delpre.value !in w.kevers {
        return KeyError;
      }
      var delegator, seal := w.habs[e.pre].delpre.value, Seal(e.pre, e.sn, Said(e));
      if (delegator, seal) in w.anchors {
        if (e.pre, e.sn) !in cdel { cdel := cdel[(e.pre, e.sn) := Said(e)]; }
        dune := dune - {e.Key()};
        trace := trace + [Found(e, delegator, seal)];
      }
      o := Done;
    }

    method ProcessUnanchoredEscrow(w: World) returns (o: Outcome, ghost walk: seq<Event>)
      requires Keyed(dune)
      modifies this
      ensures (Now(), o) == AnchorPass(w, old(Now()), walk)
      ensures Among(walk, old(dune)) && (o == Done ==> Covered(walk, old(dune)))
    {
      var snapshot, rest := dune, dune.Keys;
      walk, o := [], Done;
      while rest != {} && o == Done
        invariant rest <= snapshot.Keys && snapshot == old(dune)
        invariant (Now(), o) == AnchorPass(w, old(Now()), walk)
        invariant Among(walk, snapshot) && forall k | k in snapshot ::
          (k in rest ==> snapshot[k] !in walk) && (k !in rest ==> snapshot[k] in walk)
        decreases |rest|, o == Done
      {
        var k :| k in rest;
        rest := rest - {k};
        AnchorPassMore(w, old(Now()), walk, snapshot[k]);
        walk := walk + [snapshot[k]];
        o := Approve(w, snapshot[k]);
      }
    }

    method ProcessEscrows(w: World) returns (o: Outcome, ghost walk: seq<Event>, ghost walk': seq<Event>)
      requires Inv(w, Now())
      modifies this
      ensures Processed(w, old(Now()), Now(), o, walk, walk') && Inv(w, Now())
    {
      walk' := [];
      o, walk := ProcessPartialWitnessEscrow(w);
      WitnessPassKeeps(w, old(Now()), walk);
      if o != Done {
        return;
      }
      ghost var middle := Now();
      o, walk' := ProcessUnanchoredEscrow(w);
      forall e | e in walk' ensures Known(w, e) { assert middle.dune[e.Key()] == e; }
      AnchorPassMoves(w, middle, walk');
      AnchorPassKeeps(w, middle, walk');
    }
  }
}
